/**
 The terminal event feed (src/services/terminal/mod.rs, src/controllers/terminal/mod.rs): swap, mint
 and burn rows of a block range become events, which are merged by one stable sort.
 */
module EventFeed {
  import opened Prelude
  import opened StableSort
  import opened SwapRender

  // ----- Machine integers -----

  const TWO_32: int := 0x1_0000_0000
  const TWO_63: int := 0x8000_0000_0000_0000
  const TWO_64: int := 0x1_0000_0000_0000_0000

  /** `as i64` of a u64, `as u64` of an i64, `as u32` of an i32. */
  function AsI64(n: int): int { if n < TWO_63 then n else n - TWO_64 }

  function AsU64(n: int): int { if n < 0 then n + TWO_64 else n }

  function AsU32(n: int): int { if n < 0 then n + TWO_32 else n }

  // ----- Rows and events -----

  /** A row of any of the three tables; only swaps may lack a transaction index or a market. */
  datatype Row = Row(
    block: int, tx: Option<int>, log: int, created: int, hash: string, account: string, market: Option<string>,
    isBuy: bool, pool: Pool)

  /** The tables, each in the order in which the database lists it. */
  datatype Tables = Tables(swaps: seq<Row>, mints: seq<Row>, burns: seq<Row>)

  datatype Kind = Swap | Join | Exit

  /** `swap` is `None` for the other two kinds, and where rendering a swap divides by zero. */
  datatype Event = Event(
    kind: Kind, block: int, timestamp: int, txn: int, index: int, hash: string, maker: string, pair: string,
    swap: Option<SwapText>, liquidity: Option<LiquidityText>)

  function Convert(kind: Kind, row: Row): Event {
    Event(kind, AsU64(row.block), AsU64(row.created), AsU32(if row.tx.Some? then row.tx.value else 0), AsU32(row.log),
          row.hash, row.account, if row.market.Some? then row.market.value else row.pool.token,
          if kind == Swap then RenderSwap(row.pool, row.isBuy) else None,
          if kind == Swap then None else Some(RenderLiquidity(row.pool)))
  }

  function ConvertAll(kind: Kind, rows: seq<Row>): seq<Event> {
    if rows == [] then [] else [Convert(kind, rows[0])] + ConvertAll(kind, rows[1..])
  }

  // ----- The feed -----

  /** WHERE block_number >= $1 AND block_number <= $2, both bound as i64. */
  function InRange(from: nat, to: nat): Row -> bool { (r: Row) => AsI64(from) <= r.block <= AsI64(to) }

  function Gathered(t: Tables, from: nat, to: nat): seq<Event> {
    ConvertAll(Swap, Filter(InRange(from, to), t.swaps))
    + ConvertAll(Join, Filter(InRange(from, to), t.mints))
    + ConvertAll(Exit, Filter(InRange(from, to), t.burns))
  }

  /** The comparison of (block_number, transaction_index, log_index). */
  predicate NotAfter(x: Event, y: Event) {
    x.block < y.block || (x.block == y.block && (x.txn < y.txn || (x.txn == y.txn && x.index <= y.index)))
  }

  function Feed(t: Tables, from: nat, to: nat): seq<Event> { Sort(NotAfter, Gathered(t, from, to)) }

  lemma NotAfterIsOrder()
    ensures TotalPreorder(NotAfter)
  {
  }

  function Rank(kind: Kind): nat {
    match kind
    case Swap => 0
    case Join => 1
    case Exit => 2
  }

  predicate KindNotAfter(x: Event, y: Event) { Rank(x.kind) <= Rank(y.kind) }

  lemma {:induction false} ConvertedKind(kind: Kind, rows: seq<Row>)
    ensures |ConvertAll(kind, rows)| == |rows|
    ensures forall i :: 0 <= i < |rows| ==> ConvertAll(kind, rows)[i].kind == kind
  {
    if rows == [] {
    } else {
      ConvertedKind(kind, rows[1..]);
    }
  }

  lemma GatheredByKind(t: Tables, from: nat, to: nat)
    ensures Sorted(KindNotAfter, Gathered(t, from, to))
  {
    ConvertedKind(Swap, Filter(InRange(from, to), t.swaps));
    ConvertedKind(Join, Filter(InRange(from, to), t.mints));
    ConvertedKind(Exit, Filter(InRange(from, to), t.burns));
  }

  /**
   The feed is sorted by block, transaction and log index, holds exactly the converted rows of the
   three tables, and lists swaps before mints before burns where those three agree.
   */
  lemma FeedIsOrdered(t: Tables, from: nat, to: nat)
    ensures Sorted(NotAfter, Feed(t, from, to))
    ensures multiset(Feed(t, from, to))
         == multiset(ConvertAll(Swap, Filter(InRange(from, to), t.swaps)))
            + multiset(ConvertAll(Join, Filter(InRange(from, to), t.mints)))
            + multiset(ConvertAll(Exit, Filter(InRange(from, to), t.burns)))
    ensures var feed := Feed(t, from, to);
            forall i, j :: 0 <= i < j < |feed| && Tied(NotAfter, feed[i], feed[j]) ==> KindNotAfter(feed[i], feed[j])
  {
    hide Sort, NotAfter, KindNotAfter;
    var feed := Feed(t, from, to);
    NotAfterIsOrder();
    SortSorted(NotAfter, Gathered(t, from, to));
    GatheredByKind(t, from, to);
    forall i, j | 0 <= i < j < |feed| && Tied(NotAfter, feed[i], feed[j]) ensures KindNotAfter(feed[i], feed[j]) {
      TiesInOrder(NotAfter, KindNotAfter, Gathered(t, from, to), i, j);
    }
  }

  // ----- What the feed says of the rows -----

  /** A row with the table it comes from. */
  datatype Source = Source(kind: Kind, row: Row)

  function TxOf(row: Row): int { if row.tx.Some? then row.tx.value else 0 }

  /** An event, field by field, against its row. */
  predicate Describes(e: Event, x: Source) {
    var row := x.row;
    && e.kind == x.kind && e.hash == row.hash && e.maker == row.account
    && (row.block >= 0 ==> e.block == row.block) && (row.created >= 0 ==> e.timestamp == row.created)
    && (TxOf(row) >= 0 ==> e.txn == TxOf(row)) && (row.log >= 0 ==> e.index == row.log)
    && e.pair == (if row.market.Some? then row.market.value else row.pool.token)
    && (row.pool.token != row.pool.quote ==> TextsFit(e, x))
  }

  predicate TextsFit(e: Event, x: Source) {
    if x.kind == Swap then
      && e.liquidity.None? && (e.swap.Some? <==> FirstAmount(x.row.pool) > 0)
      && (e.swap.Some? ==> SwapFits(x.row.pool, x.row.isBuy, e.swap.value))
    else
      e.swap.None? && e.liquidity.Some? && LiquidityFits(x.row.pool, e.liquidity.value)
  }

  function TableOf(t: Tables, kind: Kind): seq<Row> {
    match kind
    case Swap => t.swaps
    case Join => t.mints
    case Exit => t.burns
  }

  function Tag(kind: Kind): Row -> Source { (row: Row) => Source(kind, row) }

  function SourcesOfKind(t: Tables, kind: Kind, from: nat, to: nat): seq<Source> {
    Map(Tag(kind), Filter(InRange(from, to), TableOf(t, kind)))
  }

  function Sources(t: Tables, from: nat, to: nat): seq<Source> {
    SourcesOfKind(t, Swap, from, to) + SourcesOfKind(t, Join, from, to) + SourcesOfKind(t, Exit, from, to)
  }

  /** The rows' own order: block, transaction (none counting as 0), log, then swap before mint before burn. */
  predicate InFeedOrder(x: Source, y: Source) {
    || x.row.block < y.row.block
    || (x.row.block == y.row.block && TxOf(x.row) < TxOf(y.row))
    || (x.row.block == y.row.block && TxOf(x.row) == TxOf(y.row) && x.row.log < y.row.log)
    || (x.row.block == y.row.block && TxOf(x.row) == TxOf(y.row) && x.row.log == y.row.log
        && (x.kind == Swap || y.kind == Exit || x.kind == y.kind))
  }

  predicate NonNegative(row: Row) { row.block >= 0 && TxOf(row) >= 0 && row.log >= 0 }

  /** The feed lists the rows in range, each once, described by its event, in their order. */
  ghost predicate Lists(t: Tables, from: nat, to: nat, events: seq<Event>, sources: seq<Source>) {
    && multiset(sources) == multiset(Sources(t, from, to)) && |events| == |sources|
    && (forall i :: 0 <= i < |events| ==> Describes(events[i], sources[i]))
    && (forall i, j :: 0 <= i < j < |sources| && NonNegative(sources[i].row) && NonNegative(sources[j].row) ==>
          InFeedOrder(sources[i], sources[j]))
  }

  ghost predicate IsFeed(t: Tables, from: nat, to: nat, events: seq<Event>) {
    exists sources :: Lists(t, from, to, events, sources)
  }

  function ConvertSource(x: Source): Event { Convert(x.kind, x.row) }

  predicate SourceNotAfter(x: Source, y: Source) { NotAfter(ConvertSource(x), ConvertSource(y)) }

  lemma ConvertDescribes(x: Source)
    ensures Describes(ConvertSource(x), x)
  {
    hide RenderSwap, RenderLiquidity, SwapFits, LiquidityFits, FirstAmount;
    if x.row.pool.token != x.row.pool.quote {
      SwapIsFaithful(x.row.pool, x.row.isBuy);
      LiquidityIsFaithful(x.row.pool);
    }
  }

  lemma {:induction false} ConvertAllIsMap(kind: Kind, rows: seq<Row>)
    ensures ConvertAll(kind, rows) == Map(ConvertSource, Map(Tag(kind), rows))
  {
    hide Convert;
    if rows == [] {
    } else {
      ConvertAllIsMap(kind, rows[1..]);
      assert Map(ConvertSource, Map(Tag(kind), rows))[1..] == Map(ConvertSource, Map(Tag(kind), rows[1..]));
    }
  }

  lemma GatheredIsMap(t: Tables, from: nat, to: nat)
    ensures Gathered(t, from, to) == Map(ConvertSource, Sources(t, from, to))
  {
    hide Filter, Convert, ConvertAll;
    ConvertAllIsMap(Swap, Filter(InRange(from, to), t.swaps));
    ConvertAllIsMap(Join, Filter(InRange(from, to), t.mints));
    ConvertAllIsMap(Exit, Filter(InRange(from, to), t.burns));
  }

  lemma KeysOf(x: Source)
    ensures var e := ConvertSource(x);
      && e.kind == x.kind
      && (NonNegative(x.row) ==> e.block == x.row.block && e.txn == TxOf(x.row) && e.index == x.row.log)
  {
  }

  lemma OrderedSources(t: Tables, from: nat, to: nat, i: nat, j: nat)
    requires i < j < |Sort(SourceNotAfter, Sources(t, from, to))|
    requires Feed(t, from, to) == Map(ConvertSource, Sort(SourceNotAfter, Sources(t, from, to)))
    ensures var sources := Sort(SourceNotAfter, Sources(t, from, to));
            NonNegative(sources[i].row) && NonNegative(sources[j].row) ==> InFeedOrder(sources[i], sources[j])
  {
    hide Sort, Sources, Feed, ConvertSource;
    var sources := Sort(SourceNotAfter, Sources(t, from, to));
    FeedIsOrdered(t, from, to);
    KeysOf(sources[i]);
    KeysOf(sources[j]);
    var x, y := Feed(t, from, to)[i], Feed(t, from, to)[j];
    assert x == ConvertSource(sources[i]) && y == ConvertSource(sources[j]) && NotAfter(x, y);
    assert Tied(NotAfter, x, y) ==> KindNotAfter(x, y);
  }

  /**
   Main result. The feed lists exactly the rows of the three tables in range, each once; every event
   says what its row says; and the rows come in the order of block, transaction, log and kind.
   */
  lemma FeedIsFaithful(t: Tables, from: nat, to: nat)
    ensures IsFeed(t, from, to, Feed(t, from, to))
    ensures from < TWO_63 && to < TWO_63 ==>
              forall x :: x in Sources(t, from, to) <==> x.row in TableOf(t, x.kind) && from <= x.row.block <= to
  {
    hide Sort, Gathered, Describes, ConvertSource, InFeedOrder, NotAfter;
    var sources := Sort(SourceNotAfter, Sources(t, from, to));
    GatheredIsMap(t, from, to);
    SortMap(ConvertSource, NotAfter, SourceNotAfter, Sources(t, from, to));
    var feed := Feed(t, from, to);
    forall i | 0 <= i < |feed| ensures Describes(feed[i], sources[i]) {
      ConvertDescribes(sources[i]);
    }
    forall i, j | 0 <= i < j < |sources| && NonNegative(sources[i].row) && NonNegative(sources[j].row)
      ensures InFeedOrder(sources[i], sources[j])
    {
      OrderedSources(t, from, to, i, j);
    }
    assert Lists(t, from, to, feed, sources);
    if from < TWO_63 && to < TWO_63 {
      forall x ensures x in Sources(t, from, to) <==> x.row in TableOf(t, x.kind) && from <= x.row.block <= to {
        SourcesMember(t, from, to, x);
      }
    }
  }

  lemma SourcesMember(t: Tables, from: nat, to: nat, x: Source)
    requires from < TWO_63 && to < TWO_63
    ensures x in Sources(t, from, to) <==> x.row in TableOf(t, x.kind) && from <= x.row.block <= to
  {
    hide Filter, Map;
    OfKindMember(t, Swap, from, to, x);
    OfKindMember(t, Join, from, to, x);
    OfKindMember(t, Exit, from, to, x);
  }

  lemma OfKindMember(t: Tables, kind: Kind, from: nat, to: nat, x: Source)
    requires from < TWO_63 && to < TWO_63
    ensures x in SourcesOfKind(t, kind, from, to) <==>
            x.kind == kind && x.row in TableOf(t, kind) && from <= x.row.block <= to
  {
    hide Filter;
    var rows := Filter(InRange(from, to), TableOf(t, kind));
    FilterMembers(InRange(from, to), TableOf(t, kind));
    var tagged := Map(Tag(kind), rows);
    if x in tagged {
      var i :| 0 <= i < |tagged| && tagged[i] == x;
      assert rows[i] == x.row;
    }
    if x.kind == kind && x.row in rows {
      var i :| 0 <= i < |rows| && rows[i] == x.row;
      assert tagged[i] == x;
    }
  }

  // ----- Splitting a range -----

  /** Blocks are never negative and fit the column. */
  ghost predicate ValidRows(rows: seq<Row>) { forall r :: r in rows ==> 0 <= r.block < TWO_63 }

  ghost predicate ValidTables(t: Tables) { ValidRows(t.swaps) && ValidRows(t.mints) && ValidRows(t.burns) }

  function UpTo(block: int): Event -> bool { (e: Event) => e.block <= block }

  lemma {:induction false} LowHalf(kind: Kind, rows: seq<Row>, a: nat, b: nat, c: nat)
    requires ValidRows(rows) && a <= b < c < TWO_63
    ensures Filter(UpTo(b), ConvertAll(kind, Filter(InRange(a, c), rows)))
         == ConvertAll(kind, Filter(InRange(a, b), rows))
    ensures Filter(Not(UpTo(b)), ConvertAll(kind, Filter(InRange(a, c), rows)))
         == ConvertAll(kind, Filter(InRange(b + 1, c), rows))
  {
    hide Convert;
    if rows == [] {
    } else {
      LowHalf(kind, rows[1..], a, b, c);
      ConvertHead(kind, rows[0], Filter(InRange(a, c), rows[1..]));
      ConvertHead(kind, rows[0], Filter(InRange(a, b), rows[1..]));
      ConvertHead(kind, rows[0], Filter(InRange(b + 1, c), rows[1..]));
      var rest := ConvertAll(kind, Filter(InRange(a, c), rows[1..]));
      FilterCons(UpTo(b), Convert(kind, rows[0]), rest);
      FilterCons(Not(UpTo(b)), Convert(kind, rows[0]), rest);
      KeepsBlock(kind, rows[0]);
    }
  }

  lemma ConvertHead(kind: Kind, row: Row, rows: seq<Row>)
    ensures ConvertAll(kind, [row] + rows) == [Convert(kind, row)] + ConvertAll(kind, rows)
  {
    assert ([row] + rows)[1..] == rows;
  }

  lemma KeepsBlock(kind: Kind, row: Row)
    requires 0 <= row.block < TWO_63
    ensures Convert(kind, row).block == row.block
  {
  }

  lemma GatheredHalves(t: Tables, a: nat, b: nat, c: nat)
    requires ValidTables(t) && a <= b < c < TWO_63
    ensures Filter(UpTo(b), Gathered(t, a, c)) == Gathered(t, a, b)
    ensures Filter(Not(UpTo(b)), Gathered(t, a, c)) == Gathered(t, b + 1, c)
  {
    hide Filter, ConvertAll;
    var s := ConvertAll(Swap, Filter(InRange(a, c), t.swaps));
    var m := ConvertAll(Join, Filter(InRange(a, c), t.mints));
    var x := ConvertAll(Exit, Filter(InRange(a, c), t.burns));
    LowHalf(Swap, t.swaps, a, b, c);
    LowHalf(Join, t.mints, a, b, c);
    LowHalf(Exit, t.burns, a, b, c);
    FilterConcat(UpTo(b), s + m, x);
    FilterConcat(UpTo(b), s, m);
    FilterConcat(Not(UpTo(b)), s + m, x);
    FilterConcat(Not(UpTo(b)), s, m);
  }

  /** Two adjacent ranges whose ends fit the column join without loss, repeat or reordering. */
  lemma SplitIsLossless(t: Tables, a: nat, b: nat, c: nat)
    requires ValidTables(t) && a <= b < c < TWO_63
    ensures Feed(t, a, c) == Feed(t, a, b) + Feed(t, b + 1, c)
  {
    hide Sort, Filter, Gathered;
    NotAfterIsOrder();
    GatheredHalves(t, a, b, c);
    assert Separates(NotAfter, UpTo(b), Gathered(t, a, c));
    SortSplit(NotAfter, UpTo(b), Gathered(t, a, c));
  }

  lemma {:induction false} NothingBelowZero(rows: seq<Row>, from: nat, to: nat)
    requires ValidRows(rows) && AsI64(to) < 0
    ensures Filter(InRange(from, to), rows) == []
  {
    FilterNone(InRange(from, to), rows);
  }

  lemma EmptyFeed(t: Tables, from: nat, to: nat)
    requires ValidTables(t) && AsI64(to) < 0
    ensures Feed(t, from, to) == []
  {
    NothingBelowZero(t.swaps, from, to);
    NothingBelowZero(t.mints, from, to);
    NothingBelowZero(t.burns, from, to);
  }

  ghost predicate AlwaysLossless(a: nat, b: nat, c: nat) {
    forall t :: ValidTables(t) ==> Feed(t, a, c) == Feed(t, a, b) + Feed(t, b + 1, c)
  }

  function OneSwap(block: int): Tables {
    Tables([Row(block, None, 0, 0, "", "", None, true, Pool("t", "q", 1, 1, None, None))], [], [])
  }

  lemma OneSwapIsLost(a: nat, b: nat, c: nat)
    requires a <= b < TWO_63 <= c < TWO_64
    ensures Feed(OneSwap(a), a, c) != Feed(OneSwap(a), a, b) + Feed(OneSwap(a), b + 1, c)
  {
    hide Convert, Sort;
    var t := OneSwap(a);
    EmptyFeed(t, a, c);
    FilterAll(InRange(a, b), t.swaps);
    ConvertedKind(Swap, t.swaps);
    assert |Gathered(t, a, b)| == 1;
    assert |Feed(t, a, b)| == |multiset(Feed(t, a, b))| == |multiset(Gathered(t, a, b))|;
  }

  /**
   Main result. Splitting a range of 64-bit block numbers is lossless whatever the tables hold, except
   exactly when the upper end, but not the split point, is beyond what the signed column can hold.
   */
  lemma LosslessIff(a: nat, b: nat, c: nat)
    requires a <= b < c < TWO_64
    ensures AlwaysLossless(a, b, c) <==> !(b < TWO_63 <= c)
  {
    hide Feed;
    if b < TWO_63 <= c {
      OneSwapIsLost(a, b, c);
      assert ValidTables(OneSwap(a));
    } else {
      forall t | ValidTables(t) ensures Feed(t, a, c) == Feed(t, a, b) + Feed(t, b + 1, c) {
        if c < TWO_63 {
          SplitIsLossless(t, a, b, c);
        } else {
          EmptyFeed(t, a, c);
          EmptyFeed(t, a, b);
          EmptyFeed(t, b + 1, c);
        }
      }
    }
  }

  // ----- The functions as the source writes them -----

  const MAX_BLOCK_RANGE: nat := 10_000

  /** `EventsQuery::validate` */
  function Validate(from: nat, to: nat): Result<(), string> {
    if from > to then Err("from_block must be <= to_block")
    else if to - from > MAX_BLOCK_RANGE then Err("Block range must not exceed 10000")
    else Ok(())
  }

  /** Some accepted request does lose events when it is split: the range limit does not prevent it. */
  lemma AcceptedRangeMayNotSplit()
    ensures exists a: nat, b: nat, c: nat ::
              a <= b < c < TWO_64 && Validate(a, c).Ok? && !AlwaysLossless(a, b, c)
  {
    LosslessIff(TWO_63 - 1, TWO_63 - 1, TWO_63);
    assert Validate(TWO_63 - 1, TWO_63).Ok?;
  }

  lemma {:induction false} ConvertLast(kind: Kind, rows: seq<Row>, row: Row)
    ensures ConvertAll(kind, rows + [row]) == ConvertAll(kind, rows) + [Convert(kind, row)]
  {
    hide Convert;
    if rows == [] {
      assert [] + [row] == [row];
    } else {
      assert (rows + [row])[1..] == rows[1..] + [row];
      ConvertLast(kind, rows[1..], row);
    }
  }

  /** `events.extend(rows.into_iter().map(..))` */
  method Extend(events: seq<Event>, kind: Kind, rows: seq<Row>) returns (extended: seq<Event>)
    ensures extended == events + ConvertAll(kind, rows)
  {
    hide Convert;
    extended := events;
    for i := 0 to |rows|
      invariant extended == events + ConvertAll(kind, rows[..i])
    {
      ConvertLast(kind, rows[..i], rows[i]);
      assert rows[..i + 1] == rows[..i] + [rows[i]];
      extended := extended + [Convert(kind, rows[i])];
    }
    assert rows[..|rows|] == rows;
  }

  /** `get_events` of the service. */
  method GetEvents(t: Tables, from: nat, to: nat) returns (events: seq<Event>)
    ensures events == Feed(t, from, to)
    ensures IsFeed(t, from, to, events)
  {
    hide Convert, ConvertAll, Filter, Sort, IsFeed;
    FeedIsFaithful(t, from, to);
    events := Extend([], Swap, Filter(InRange(from, to), t.swaps));
    events := Extend(events, Join, Filter(InRange(from, to), t.mints));
    events := Extend(events, Exit, Filter(InRange(from, to), t.burns));
    assert events == Gathered(t, from, to);
    events := Sort(NotAfter, events);
  }
}
