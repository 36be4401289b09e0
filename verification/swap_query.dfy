/**
 The swap-history query compiler (src/controllers/trading/swap_history.rs). Two loops of the
 source push SQL text with numbered placeholders and, separately, bind the values; the list and
 the count do so with their clauses in different orders. The model emits the WHERE text as tokens,
 reads them back with SQL's precedence of AND over OR, and evaluates them against a row.
 */
module SwapQuery {
  import opened Prelude

  datatype VolumeRange = Small | Medium | Large

  function MinValue(r: VolumeRange): real {
    match r case Small => 0.0 case Medium => 1000.0 case Large => 10000.0
  }

  function MaxValue(r: VolumeRange): Option<real> {
    match r case Small => Some(1000.0) case Medium => Some(10000.0) case Large => None
  }

  /** What the compiler reads of a request: the account is already normalised. */
  datatype Filter = Filter(
    tokenId: string, account: Option<string>, tradeType: string, ranges: Option<seq<VolumeRange>>)

  datatype SwapRow = SwapRow(
    tokenId: string, accountId: string, isBuy: bool, value: real,
    block: int, txIndex: int, logIndex: int)

  predicate InRange(r: VolumeRange, value: real) {
    MinValue(r) <= value && (MaxValue(r).Some? ==> value < MaxValue(r).value)
  }

  /** The ranges as the API documents them. */
  predicate InDollars(r: VolumeRange, value: real) {
    match r
    case Small => 0.0 <= value < 1000.0
    case Medium => 1000.0 <= value < 10000.0
    case Large => 10000.0 <= value
  }

  /** The compiled bounds are the documented ones, and every value from 0 on lies in exactly one range. */
  lemma RangesPartition(value: real)
    ensures forall r :: InRange(r, value) <==> InDollars(r, value)
    ensures (exists r :: InRange(r, value)) <==> value >= 0.0
    ensures forall r, q :: InRange(r, value) && InRange(q, value) ==> r == q
  {
    if value >= 0.0 {
      var r := if value < 1000.0 then Small else if value < 10000.0 then Medium else Large;
      assert InRange(r, value);
    }
  }

  predicate InSome(rs: seq<VolumeRange>, value: real) {
    exists i :: 0 <= i < |rs| && InRange(rs[i], value)
  }

  function RangesOf(f: Filter): seq<VolumeRange> { if f.ranges.Some? then f.ranges.value else [] }

  predicate TradeMatches(f: Filter, row: SwapRow) {
    (f.tradeType == "BUY" ==> row.isBuy) && (f.tradeType == "SELL" ==> !row.isBuy)
  }

  /** What a request asks for. */
  predicate Matches(f: Filter, row: SwapRow) {
    && row.tokenId == f.tokenId
    && (f.account.Some? ==> row.accountId == f.account.value)
    && TradeMatches(f, row)
    && (RangesOf(f) == [] || InSome(RangesOf(f), row.value))
  }

  // ----- SQL text after WHERE, its grammar and its meaning -----

  datatype Column = TokenId | AccountId | IsBuy | Value

  datatype Token =
    | Col(c: Column) | Param(n: nat) | True | False
    | Eq | Ge | Lt | And | Or | LPar | RPar

  datatype Expr =
    | Compare(c: Column, op: Token, arg: Token)
    | Conj(l: Expr, r: Expr)
    | Disj(l: Expr, r: Expr)

  datatype Bind = Text(s: string) | Number(x: real)

  type Parsed = Option<(Expr, seq<Token>)>

  predicate Starts(ts: seq<Token>, t: Token) { |ts| > 0 && ts[0] == t }

  /** disjunction := conjunction (OR conjunction)* */
  function ParseOr(ts: seq<Token>): (r: Parsed)
    ensures r.Some? ==> |r.value.1| < |ts|
    decreases |ts|, 2
  {
    match ParseAnd(ts)
    case None => None
    case Some((e, rest)) => OrTail(e, rest)
  }

  function OrTail(e: Expr, ts: seq<Token>): (r: Parsed)
    ensures r.Some? ==> |r.value.1| <= |ts|
    decreases |ts|, 3
  {
    if !Starts(ts, Or) then Some((e, ts))
    else match ParseAnd(ts[1..])
      case None => None
      case Some((e', rest)) => OrTail(Disj(e, e'), rest)
  }

  /** conjunction := primary (AND primary)* */
  function ParseAnd(ts: seq<Token>): (r: Parsed)
    ensures r.Some? ==> |r.value.1| < |ts|
    decreases |ts|, 1
  {
    match ParsePrimary(ts)
    case None => None
    case Some((e, rest)) => AndTail(e, rest)
  }

  function AndTail(e: Expr, ts: seq<Token>): (r: Parsed)
    ensures r.Some? ==> |r.value.1| <= |ts|
    decreases |ts|, 3
  {
    if !Starts(ts, And) then Some((e, ts))
    else match ParsePrimary(ts[1..])
      case None => None
      case Some((e', rest)) => AndTail(Conj(e, e'), rest)
  }

  /** primary := '(' disjunction ')' | column operator argument */
  function ParsePrimary(ts: seq<Token>): (r: Parsed)
    ensures r.Some? ==> |r.value.1| < |ts|
    decreases |ts|, 0
  {
    if Starts(ts, LPar) then
      match ParseOr(ts[1..])
      case None => None
      case Some((e, rest)) => if Starts(rest, RPar) then Some((e, rest[1..])) else None
    else if |ts| >= 3 && ts[0].Col? && (ts[1].Eq? || ts[1].Ge? || ts[1].Lt?)
         && (ts[2].Param? || ts[2].True? || ts[2].False?) then
      Some((Compare(ts[0].c, ts[1], ts[2]), ts[3..]))
    else None
  }

  function Parse(ts: seq<Token>): Option<Expr> {
    match ParseOr(ts)
    case None => None
    case Some((e, rest)) => if rest == [] then Some(e) else None
  }

  /** The value of an expression on a row; None is an SQL error (missing or ill-typed bind). */
  function Eval(e: Expr, binds: seq<Bind>, row: SwapRow): Option<bool> {
    match e
    case Conj(l, r) =>
      (match (Eval(l, binds, row), Eval(r, binds, row))
       case (Some(a), Some(b)) => Some(a && b)
       case _ => None)
    case Disj(l, r) =>
      (match (Eval(l, binds, row), Eval(r, binds, row))
       case (Some(a), Some(b)) => Some(a || b)
       case _ => None)
    case Compare(IsBuy, Eq, True) => Some(row.isBuy)
    case Compare(IsBuy, Eq, False) => Some(!row.isBuy)
    case Compare(c, op, Param(n)) =>
      if !(1 <= n <= |binds|) then None
      else (match (c, op, binds[n - 1])
        case (TokenId, Eq, Text(s)) => Some(row.tokenId == s)
        case (AccountId, Eq, Text(s)) => Some(row.accountId == s)
        case (Value, Ge, Number(x)) => Some(row.value >= x)
        case (Value, Lt, Number(x)) => Some(row.value < x)
        case _ => None)
    case _ => None
  }

  /** Running a WHERE text: parse all of it, then evaluate. */
  function Accepts(ts: seq<Token>, binds: seq<Bind>, row: SwapRow): Option<bool> {
    match Parse(ts)
    case None => None
    case Some(e) => Eval(e, binds, row)
  }

  /** The placeholder numbers in textual order. */
  function Placeholders(ts: seq<Token>): seq<nat> {
    if ts == [] then []
    else Placeholders(ts[..|ts| - 1]) + (if ts[|ts| - 1].Param? then [ts[|ts| - 1].n] else [])
  }

  // ----- What the two compilers emit -----

  function AccountTokens(f: Filter, next: nat): seq<Token> {
    if f.account.Some? then [And] + [Col(AccountId), Eq, Param(next)] else []
  }

  function TradeTokens(f: Filter): seq<Token> {
    if f.tradeType == "BUY" then [And] + [Col(IsBuy), Eq, True]
    else if f.tradeType == "SELL" then [And] + [Col(IsBuy), Eq, False]
    else []
  }

  function LowTokens(next: nat): seq<Token> { [Col(Value), Ge, Param(next)] }

  function HighTokens(next: nat): seq<Token> { [Col(Value), Lt, Param(next)] }

  /** One range: two bounds in parentheses, or the lower bound alone. */
  function RangeTokens(r: VolumeRange, next: nat): seq<Token> {
    if MaxValue(r).Some?
    then [LPar] + LowTokens(next) + [And] + HighTokens(next + 1) + [RPar]
    else LowTokens(next)
  }

  function Width(r: VolumeRange): nat { if MaxValue(r).Some? then 2 else 1 }

  function Widths(rs: seq<VolumeRange>): nat {
    if rs == [] then 0 else Widths(rs[..|rs| - 1]) + Width(rs[|rs| - 1])
  }

  function RangeListTokens(rs: seq<VolumeRange>, next: nat): seq<Token> {
    if rs == [] then []
    else
      var init := rs[..|rs| - 1];
      RangeListTokens(init, next) + (if init == [] then [] else [Or])
        + RangeTokens(rs[|rs| - 1], next + Widths(init))
  }

  function RangesTokens(f: Filter, next: nat): seq<Token> {
    if RangesOf(f) == [] then [] else [And, LPar] + RangeListTokens(RangesOf(f), next) + [RPar]
  }

  const TOKEN_CLAUSE: seq<Token> := [Col(TokenId), Eq, Param(1)]

  function RangesNext(f: Filter): nat { if f.account.Some? then 3 else 2 }

  function ListWhere(f: Filter): seq<Token> {
    TOKEN_CLAUSE + AccountTokens(f, 2) + TradeTokens(f) + RangesTokens(f, RangesNext(f))
  }

  function CountWhere(f: Filter): seq<Token> {
    TOKEN_CLAUSE + AccountTokens(f, 2) + RangesTokens(f, RangesNext(f)) + TradeTokens(f)
  }

  function RangeBinds(r: VolumeRange): seq<Bind> {
    [Number(MinValue(r))] + if MaxValue(r).Some? then [Number(MaxValue(r).value)] else []
  }

  function RangeListBinds(rs: seq<VolumeRange>): (bs: seq<Bind>)
    ensures |bs| == Widths(rs)
  {
    if rs == [] then [] else RangeListBinds(rs[..|rs| - 1]) + RangeBinds(rs[|rs| - 1])
  }

  function FirstBinds(f: Filter): seq<Bind> {
    [Text(f.tokenId)] + if f.account.Some? then [Text(f.account.value)] else []
  }

  function Binds(f: Filter): seq<Bind> { FirstBinds(f) + RangeListBinds(RangesOf(f)) }

  // ----- Reading the emitted text back -----

  function RangeExpr(r: VolumeRange, next: nat): Expr {
    var low := Compare(Value, Ge, Param(next));
    if MaxValue(r).Some? then Conj(low, Compare(Value, Lt, Param(next + 1))) else low
  }

  function RangeListExpr(rs: seq<VolumeRange>, next: nat): Expr
    requires rs != []
  {
    var init := rs[..|rs| - 1];
    var last := RangeExpr(rs[|rs| - 1], next + Widths(init));
    if init == [] then last else Disj(RangeListExpr(init, next), last)
  }

  /** Putting tokens back in front of what was read from them. */
  lemma Rest(front: seq<Token>, rest: seq<Token>)
    ensures (front + rest)[|front|..] == rest
  {
  }

  lemma ReadCompare(c: Column, op: Token, arg: Token, rest: seq<Token>)
    requires (op.Eq? || op.Ge? || op.Lt?) && (arg.Param? || arg.True? || arg.False?)
    ensures ParsePrimary([Col(c), op, arg] + rest) == Some((Compare(c, op, arg), rest))
  {
    Rest([Col(c), op, arg], rest);
  }

  lemma ReadAnd(acc: Expr, primary: seq<Token>, e: Expr, rest: seq<Token>)
    requires ParsePrimary(primary + rest) == Some((e, rest))
    ensures AndTail(acc, [And] + primary + rest) == AndTail(Conj(acc, e), rest)
  {
    assert [And] + primary + rest == [And] + (primary + rest);
    Rest([And], primary + rest);
  }

  lemma ReadOr(acc: Expr, conjunction: seq<Token>, e: Expr, rest: seq<Token>)
    requires ParseAnd(conjunction + rest) == Some((e, rest))
    ensures OrTail(acc, [Or] + conjunction + rest) == OrTail(Disj(acc, e), rest)
  {
    assert [Or] + conjunction + rest == [Or] + (conjunction + rest);
    Rest([Or], conjunction + rest);
  }

  lemma ReadParens(inner: seq<Token>, e: Expr, rest: seq<Token>)
    requires ParseOr(inner + ([RPar] + rest)) == Some((e, [RPar] + rest))
    ensures ParsePrimary([LPar] + inner + [RPar] + rest) == Some((e, rest))
  {
    assert [LPar] + inner + [RPar] + rest == [LPar] + (inner + ([RPar] + rest));
    Rest([LPar], inner + ([RPar] + rest));
    Rest([RPar], rest);
  }

  /** `s.value >= $n AND s.value < $m` is one conjunction. */
  lemma ParseBounds(next: nat, rest: seq<Token>)
    requires !Starts(rest, And)
    ensures ParseAnd(LowTokens(next) + ([And] + HighTokens(next + 1) + rest))
         == Some((Conj(Compare(Value, Ge, Param(next)), Compare(Value, Lt, Param(next + 1))), rest))
  {
    ReadCompare(Value, Ge, Param(next), [And] + HighTokens(next + 1) + rest);
    ReadCompare(Value, Lt, Param(next + 1), rest);
    ReadAnd(Compare(Value, Ge, Param(next)), HighTokens(next + 1), Compare(Value, Lt, Param(next + 1)), rest);
  }

  /** A primary that no AND follows is a whole conjunction. */
  lemma ReadAlone(primary: seq<Token>, e: Expr, rest: seq<Token>)
    requires ParsePrimary(primary + rest) == Some((e, rest)) && !Starts(rest, And)
    ensures ParseAnd(primary + rest) == Some((e, rest))
  {
  }

  /** A conjunction that a closing parenthesis follows is a whole disjunction. */
  lemma ReadClosed(tokens: seq<Token>, e: Expr, rest: seq<Token>)
    requires ParseAnd(tokens) == Some((e, [RPar] + rest))
    ensures ParseOr(tokens) == Some((e, [RPar] + rest))
  {
  }

  lemma ClosedRange(low: seq<Token>, high: seq<Token>, rest: seq<Token>)
    ensures low + [And] + high + ([RPar] + rest) == low + ([And] + high + ([RPar] + rest))
    ensures [LPar] + (low + [And] + high) + [RPar] + rest == [LPar] + low + [And] + high + [RPar] + rest
  {
  }

  /** One range, wherever it stands in the list, is read as one operand of OR. */
  lemma ParseRange(r: VolumeRange, next: nat, rest: seq<Token>)
    requires !Starts(rest, And)
    ensures ParseAnd(RangeTokens(r, next) + rest) == Some((RangeExpr(r, next), rest))
  {
    if MaxValue(r).Some? {
      var inner := LowTokens(next) + [And] + HighTokens(next + 1);
      ParseBounds(next, [RPar] + rest);
      hide LowTokens, HighTokens, ParseAnd, ParseOr, ParsePrimary;
      ClosedRange(LowTokens(next), HighTokens(next + 1), rest);
      ReadClosed(inner + ([RPar] + rest), RangeExpr(r, next), rest);
      ReadParens(inner, RangeExpr(r, next), rest);
      ReadAlone([LPar] + inner + [RPar], RangeExpr(r, next), rest);
    } else {
      ReadCompare(Value, Ge, Param(next), rest);
      ReadAlone(LowTokens(next), RangeExpr(r, next), rest);
    }
  }

  /** Reading a list of ranges is reading its front and continuing with what follows. */
  lemma {:induction false} ParseRangeList(rs: seq<VolumeRange>, next: nat, rest: seq<Token>)
    requires rs != [] && !Starts(rest, And)
    ensures ParseOr(RangeListTokens(rs, next) + rest) == OrTail(RangeListExpr(rs, next), rest)
    decreases |rs|
  {
    hide RangeTokens, RangeExpr, ParseAnd, ParsePrimary;
    var init, r := rs[..|rs| - 1], rs[|rs| - 1];
    var at := next + Widths(init);
    var last := RangeTokens(r, at);
    ParseRange(r, at, rest);
    if init == [] {
      assert RangeListTokens(rs, next) == last;
    } else {
      ParseRangeList(init, next, [Or] + last + rest);
      ReadOr(RangeListExpr(init, next), last, RangeExpr(r, at), rest);
      assert RangeListTokens(rs, next) + rest == RangeListTokens(init, next) + ([Or] + last + rest);
    }
  }

  /** A clause as the compilers append it: nothing, or AND followed by one primary. */
  ghost predicate Appends(clause: seq<Token>, e: Option<Expr>) {
    forall acc: Expr, rest: seq<Token> {:trigger AndTail(acc, clause + rest)} ::
      AndTail(acc, clause + rest) == AndTail(With(acc, e), rest)
  }

  lemma NothingAppends()
    ensures Appends([], None)
  {
    forall rest: seq<Token> ensures [] + rest == rest {
    }
  }

  lemma CompareAppends(c: Column, arg: Token)
    requires arg.Param? || arg.True? || arg.False?
    ensures Appends([And] + [Col(c), Eq, arg], Some(Compare(c, Eq, arg)))
  {
    forall acc: Expr, rest: seq<Token>
      ensures AndTail(acc, [And] + [Col(c), Eq, arg] + rest) == AndTail(Conj(acc, Compare(c, Eq, arg)), rest)
    {
      ReadCompare(c, Eq, arg, rest);
      ReadAnd(acc, [Col(c), Eq, arg], Compare(c, Eq, arg), rest);
    }
  }

  function AccountExpr(f: Filter): Option<Expr> {
    if f.account.Some? then Some(Compare(AccountId, Eq, Param(2))) else None
  }

  function TradeExpr(f: Filter): Option<Expr> {
    if f.tradeType == "BUY" then Some(Compare(IsBuy, Eq, True))
    else if f.tradeType == "SELL" then Some(Compare(IsBuy, Eq, False))
    else None
  }

  function RangesExpr(f: Filter): Option<Expr> {
    if RangesOf(f) == [] then None else Some(RangeListExpr(RangesOf(f), RangesNext(f)))
  }

  lemma AndParens(inner: seq<Token>, rest: seq<Token>)
    ensures [And, LPar] + inner + [RPar] + rest == [And] + ([LPar] + inner + [RPar]) + rest
  {
    assert [And, LPar] == [And] + [LPar];
  }

  lemma RangesAppend(f: Filter)
    ensures Appends(RangesTokens(f, RangesNext(f)), RangesExpr(f))
  {
    var rs := RangesOf(f);
    if rs == [] {
      NothingAppends();
    } else {
      var list, e := RangeListTokens(rs, RangesNext(f)), RangesExpr(f).value;
      hide RangeListTokens, RangeListExpr, ParseOr, ParseAnd, ParsePrimary, AndTail;
      forall acc: Expr, rest: seq<Token>
        ensures AndTail(acc, RangesTokens(f, RangesNext(f)) + rest) == AndTail(Conj(acc, e), rest)
      {
        ParseRangeList(rs, RangesNext(f), [RPar] + rest);
        ReadParens(list, e, rest);
        ReadAnd(acc, [LPar] + list + [RPar], e, rest);
        AndParens(list, rest);
      }
    }
  }

  lemma ClausesAppend(f: Filter)
    ensures Appends(AccountTokens(f, 2), AccountExpr(f))
    ensures Appends(TradeTokens(f), TradeExpr(f))
    ensures Appends(RangesTokens(f, RangesNext(f)), RangesExpr(f))
  {
    NothingAppends();
    CompareAppends(AccountId, Param(2));
    CompareAppends(IsBuy, True);
    CompareAppends(IsBuy, False);
    RangesAppend(f);
  }

  function With(acc: Expr, e: Option<Expr>): Expr { if e.Some? then Conj(acc, e.value) else acc }

  /** Three appended clauses after the token test are read as one conjunction of all of them. */
  lemma ParseClauses(a: seq<Token>, b: seq<Token>, c: seq<Token>, ea: Option<Expr>, eb: Option<Expr>, ec: Option<Expr>)
    requires Appends(a, ea) && Appends(b, eb) && Appends(c, ec)
    ensures Parse(TOKEN_CLAUSE + a + b + c)
         == Some(With(With(With(Compare(TokenId, Eq, Param(1)), ea), eb), ec))
  {
    var first := Compare(TokenId, Eq, Param(1));
    var tail := a + (b + (c + []));
    assert TOKEN_CLAUSE + a + b + c == TOKEN_CLAUSE + tail;
    ReadCompare(TokenId, Eq, Param(1), tail);
    assert ParseAnd(TOKEN_CLAUSE + tail) == AndTail(first, tail);
    assert AndTail(first, a + (b + (c + []))) == AndTail(With(first, ea), b + (c + []));
    assert AndTail(With(first, ea), b + (c + [])) == AndTail(With(With(first, ea), eb), c + []);
    assert AndTail(With(With(first, ea), eb), c + []) == AndTail(With(With(With(first, ea), eb), ec), []);
    assert ParseOr(TOKEN_CLAUSE + tail) == OrTail(With(With(With(first, ea), eb), ec), []);
  }

  // ----- Evaluating what was read -----

  lemma EvalRange(r: VolumeRange, before: seq<Bind>, after: seq<Bind>, binds: seq<Bind>, row: SwapRow)
    requires binds == before + RangeBinds(r) + after
    ensures Eval(RangeExpr(r, |before| + 1), binds, row) == Some(InRange(r, row.value))
  {
    assert binds[|before|] == RangeBinds(r)[0];
    assert MaxValue(r).Some? ==> binds[|before| + 1] == RangeBinds(r)[1];
  }

  lemma InSomeLast(rs: seq<VolumeRange>, value: real)
    requires rs != []
    ensures InSome(rs, value) <==> InSome(rs[..|rs| - 1], value) || InRange(rs[|rs| - 1], value)
  {
    var init := rs[..|rs| - 1];
    if InSome(init, value) {
      var i :| 0 <= i < |init| && InRange(init[i], value);
      assert InRange(rs[i], value);
    }
    if InSome(rs, value) && !InRange(rs[|rs| - 1], value) {
      var i :| 0 <= i < |rs| && InRange(rs[i], value);
      assert init[i] == rs[i];
    }
  }

  lemma {:induction false} EvalRangeList(
      rs: seq<VolumeRange>, before: seq<Bind>, after: seq<Bind>, binds: seq<Bind>, row: SwapRow)
    requires rs != [] && binds == before + RangeListBinds(rs) + after
    ensures Eval(RangeListExpr(rs, |before| + 1), binds, row) == Some(InSome(rs, row.value))
    decreases |rs|
  {
    hide InSome, InRange, RangeExpr, RangeBinds, Width;
    var init, last := rs[..|rs| - 1], rs[|rs| - 1];
    var front := before + RangeListBinds(init);
    assert binds == front + RangeBinds(last) + after;
    assert binds == front + (RangeBinds(last) + after);
    EvalRange(last, front, after, binds, row);
    InSomeLast(rs, row.value);
    if init == [] {
      NoneOfNone(row.value);
    } else {
      EvalRangeList(init, before, RangeBinds(last) + after, binds, row);
    }
  }

  lemma NoneOfNone(value: real)
    ensures !InSome([], value)
  {
  }

  /** Each clause of the request evaluates to the condition it was made from. */
  lemma EvalClauses(f: Filter, row: SwapRow)
    ensures Eval(Compare(TokenId, Eq, Param(1)), Binds(f), row) == Some(row.tokenId == f.tokenId)
    ensures f.account.Some? ==> Eval(AccountExpr(f).value, Binds(f), row) == Some(row.accountId == f.account.value)
    ensures RangesOf(f) != [] ==> Eval(RangesExpr(f).value, Binds(f), row) == Some(InSome(RangesOf(f), row.value))
  {
    assert Binds(f)[0] == FirstBinds(f)[0];
    assert f.account.Some? ==> Binds(f)[1] == FirstBinds(f)[1];
    if RangesOf(f) != [] {
      EvalRangeList(RangesOf(f), FirstBinds(f), [], Binds(f), row);
    }
  }

  lemma EvalWith(acc: Expr, e: Option<Expr>, binds: seq<Bind>, row: SwapRow, a: bool, b: bool)
    requires Eval(acc, binds, row) == Some(a) && (e.Some? ==> Eval(e.value, binds, row) == Some(b))
    ensures Eval(With(acc, e), binds, row) == Some(a && (e.Some? ==> b))
  {
  }

  /** The list text accepts exactly the rows the request asks for. */
  lemma ListMeansFilter(f: Filter, row: SwapRow)
    ensures Accepts(ListWhere(f), Binds(f), row) == Some(Matches(f, row))
  {
    ClausesAppend(f);
    ParseClauses(AccountTokens(f, 2), TradeTokens(f), RangesTokens(f, RangesNext(f)),
      AccountExpr(f), TradeExpr(f), RangesExpr(f));
    EvalClauses(f, row);
    var e0 := Compare(TokenId, Eq, Param(1));
    var e1 := With(e0, AccountExpr(f));
    var e2 := With(e1, TradeExpr(f));
    var account := f.account.Some? ==> row.accountId == f.account.value;
    EvalWith(e0, AccountExpr(f), Binds(f), row, row.tokenId == f.tokenId, account);
    EvalWith(e1, TradeExpr(f), Binds(f), row, row.tokenId == f.tokenId && account, TradeMatches(f, row));
    EvalWith(e2, RangesExpr(f), Binds(f), row,
      row.tokenId == f.tokenId && account && TradeMatches(f, row), InSome(RangesOf(f), row.value));
  }

  /** So does the count text, whose clauses come in another order. */
  lemma CountMeansFilter(f: Filter, row: SwapRow)
    ensures Accepts(CountWhere(f), Binds(f), row) == Some(Matches(f, row))
  {
    ClausesAppend(f);
    ParseClauses(AccountTokens(f, 2), RangesTokens(f, RangesNext(f)), TradeTokens(f),
      AccountExpr(f), RangesExpr(f), TradeExpr(f));
    EvalClauses(f, row);
    var e0 := Compare(TokenId, Eq, Param(1));
    var e1 := With(e0, AccountExpr(f));
    var e2 := With(e1, RangesExpr(f));
    var account := f.account.Some? ==> row.accountId == f.account.value;
    var ranges := InSome(RangesOf(f), row.value);
    EvalWith(e0, AccountExpr(f), Binds(f), row, row.tokenId == f.tokenId, account);
    EvalWith(e1, RangesExpr(f), Binds(f), row, row.tokenId == f.tokenId && account, ranges);
    EvalWith(e2, TradeExpr(f), Binds(f), row,
      row.tokenId == f.tokenId && account && (RangesOf(f) == [] || ranges), TradeMatches(f, row));
  }

  // ----- Placeholder numbering -----

  lemma PlaceholdersSnoc(ts: seq<Token>, t: Token)
    ensures Placeholders(ts + [t]) == Placeholders(ts) + (if t.Param? then [t.n] else [])
  {
    assert (ts + [t])[..|ts|] == ts;
  }

  lemma {:induction false} PlaceholdersConcat(a: seq<Token>, b: seq<Token>)
    ensures Placeholders(a + b) == Placeholders(a) + Placeholders(b)
    decreases |b|
  {
    if b == [] {
      assert a + b == a;
    } else {
      hide Placeholders;
      var init, t := b[..|b| - 1], b[|b| - 1];
      PlaceholdersConcat(a, init);
      PlaceholdersSnoc(init, t);
      PlaceholdersSnoc(a + init, t);
      assert b == init + [t] && a + b == a + init + [t];
    }
  }

  /** Consecutive numbers from `from`. */
  function From(from: nat, n: nat): (s: seq<nat>)
    ensures |s| == n && forall i :: 0 <= i < n ==> s[i] == from + i
  {
    seq(n, i => from + i)
  }

  lemma LastPlaceholder(front: seq<Token>, n: nat)
    requires Placeholders(front) == []
    ensures Placeholders(front + [Param(n)]) == [n]
  {
    PlaceholdersSnoc(front, Param(n));
  }

  lemma ColumnPlaceholder(c: Column, op: Token, n: nat)
    requires !op.Param?
    ensures Placeholders([Col(c), op, Param(n)]) == [n]
  {
    PlaceholdersConcat([Col(c)], [op]);
    assert [Col(c)] + [op] == [Col(c), op];
    LastPlaceholder([Col(c), op], n);
    assert [Col(c), op] + [Param(n)] == [Col(c), op, Param(n)];
  }

  lemma ColumnPlaceholderFree(arg: Token)
    requires arg.True? || arg.False?
    ensures Placeholders([And] + [Col(IsBuy), Eq, arg]) == []
  {
    PlaceholdersConcat([Col(IsBuy)], [Eq]);
    PlaceholdersConcat([Col(IsBuy)] + [Eq], [arg]);
    assert [Col(IsBuy)] + [Eq] + [arg] == [Col(IsBuy), Eq, arg];
    PlaceholdersConcat([And], [Col(IsBuy), Eq, arg]);
  }

  lemma BoundPlaceholders(next: nat)
    ensures Placeholders(LowTokens(next)) == [next] && Placeholders(HighTokens(next)) == [next]
  {
    ColumnPlaceholder(Value, Ge, next);
    ColumnPlaceholder(Value, Lt, next);
  }

  lemma RangePlaceholders(r: VolumeRange, next: nat)
    ensures Placeholders(RangeTokens(r, next)) == From(next, Width(r))
  {
    BoundPlaceholders(next);
    BoundPlaceholders(next + 1);
    BothBoundsPlaceholders(LowTokens(next), HighTokens(next + 1));
    assert From(next, 1) == [next] && From(next, 2) == [next] + [next + 1];
  }

  lemma NoPlaceholder(t: Token)
    requires !t.Param?
    ensures Placeholders([t]) == []
  {
  }

  lemma BothBoundsPlaceholders(low: seq<Token>, high: seq<Token>)
    ensures Placeholders([LPar] + low + [And] + high + [RPar]) == Placeholders(low) + Placeholders(high)
  {
    NoPlaceholder(LPar);
    NoPlaceholder(And);
    NoPlaceholder(RPar);
    hide Placeholders;
    var first := [LPar] + low;
    PlaceholdersConcat([LPar], low);
    assert Placeholders(first) == Placeholders(low);
    PlaceholdersConcat(first, [And]);
    assert Placeholders(first + [And]) == Placeholders(low);
    var both := first + [And] + high;
    PlaceholdersConcat(first + [And], high);
    PlaceholdersConcat(both, [RPar]);
    assert Placeholders(both + [RPar]) == Placeholders(both);
  }

  lemma FromConcat(from: nat, m: nat, n: nat)
    ensures From(from, m) + From(from + m, n) == From(from, m + n)
  {
  }

  lemma {:induction false} RangeListPlaceholders(rs: seq<VolumeRange>, next: nat)
    ensures Placeholders(RangeListTokens(rs, next)) == From(next, Widths(rs))
    decreases |rs|
  {
    hide RangeTokens, Width;
    if rs == [] {
    } else {
      var init, last := rs[..|rs| - 1], rs[|rs| - 1];
      var sep: seq<Token> := if init == [] then [] else [Or];
      var at := next + Widths(init);
      RangeListPlaceholders(init, next);
      RangePlaceholders(last, at);
      PlaceholdersConcat(RangeListTokens(init, next), sep);
      PlaceholdersConcat(RangeListTokens(init, next) + sep, RangeTokens(last, at));
      FromConcat(next, Widths(init), Width(last));
      assert From(next, Widths(init)) + [] == From(next, Widths(init));
    }
  }

  lemma ClausePlaceholders(f: Filter)
    ensures Placeholders(TOKEN_CLAUSE + AccountTokens(f, 2)) == From(1, RangesNext(f) - 1)
    ensures Placeholders(TradeTokens(f)) == []
    ensures Placeholders(RangesTokens(f, RangesNext(f))) == From(RangesNext(f), Widths(RangesOf(f)))
  {
    ColumnPlaceholder(TokenId, Eq, 1);
    ColumnPlaceholder(AccountId, Eq, 2);
    ColumnPlaceholderFree(True);
    ColumnPlaceholderFree(False);
    var list := RangeListTokens(RangesOf(f), RangesNext(f));
    RangeListPlaceholders(RangesOf(f), RangesNext(f));
    NoPlaceholder(LPar);
    NoPlaceholder(And);
    NoPlaceholder(RPar);
    assert Placeholders([]) == [];
    hide RangeListTokens, Widths, RangesOf, Placeholders;
    PlaceholdersConcat([And], [Col(AccountId), Eq, Param(2)]);
    PlaceholdersConcat(TOKEN_CLAUSE, AccountTokens(f, 2));
    assert TOKEN_CLAUSE + [] == TOKEN_CLAUSE;
    assert From(1, 1) == [1] && From(1, 2) == [1] + [2];
    assert [And] + [LPar] == [And, LPar];
    PlaceholdersConcat([And], [LPar]);
    PlaceholdersConcat([And, LPar], list);
    PlaceholdersConcat([And, LPar] + list, [RPar]);
  }

  /**
   Both texts number their placeholders $1 to $n from left to right, and exactly n values are
   bound, in that order, by the separate binding loop.
   */
  lemma PlaceholdersMatchBinds(f: Filter)
    ensures Placeholders(ListWhere(f)) == From(1, |Binds(f)|)
    ensures Placeholders(CountWhere(f)) == From(1, |Binds(f)|)
  {
    hide AccountTokens, TradeTokens, RangesTokens;
    var head := TOKEN_CLAUSE + AccountTokens(f, 2);
    var ranges := RangesTokens(f, RangesNext(f));
    ClausePlaceholders(f);
    PlaceholdersConcat(head, TradeTokens(f));
    PlaceholdersConcat(head + TradeTokens(f), ranges);
    PlaceholdersConcat(head, ranges);
    PlaceholdersConcat(head + ranges, TradeTokens(f));
    FromConcat(1, RangesNext(f) - 1, Widths(RangesOf(f)));
    assert From(1, RangesNext(f) - 1) + [] == From(1, RangesNext(f) - 1);
    assert From(1, |Binds(f)|) + [] == From(1, |Binds(f)|);
  }

  // ----- The two compilers as the source writes them -----

  lemma RangeListStep(rs: seq<VolumeRange>, i: nat, next: nat)
    requires i < |rs|
    ensures Widths(rs[..i + 1]) == Widths(rs[..i]) + Width(rs[i])
    ensures RangeListTokens(rs[..i + 1], next)
         == RangeListTokens(rs[..i], next) + (if i == 0 then [] else [Or]) + RangeTokens(rs[i], next + Widths(rs[..i]))
  {
    assert rs[..i + 1][..i] == rs[..i];
  }

  lemma NoRanges(next: nat)
    ensures RangeListTokens([], next) == [] && Widths([]) == 0
  {
  }

  /** One range of the loop body. */
  method EmitRange(range: VolumeRange, next: nat) returns (sql: seq<Token>, next': nat)
    ensures sql == RangeTokens(range, next) && next' == next + Width(range)
  {
    if MaxValue(range).Some? {
      sql := [LPar] + LowTokens(next);
      next' := next + 1;
      sql := sql + [And] + HighTokens(next') + [RPar];
      next' := next' + 1;
    } else {
      sql := LowTokens(next);
      next' := next + 1;
    }
  }

  /** The loop over the ranges, joining them with OR. */
  method EmitRangeList(ranges: seq<VolumeRange>, next: nat) returns (list: seq<Token>, next': nat)
    ensures list == RangeListTokens(ranges, next) && next' == next + Widths(ranges)
  {
    NoRanges(next);
    hide RangeTokens, RangeListTokens, Widths, Width;
    list, next' := [], next;
    for i := 0 to |ranges|
      invariant list == RangeListTokens(ranges[..i], next) && next' == next + Widths(ranges[..i])
    {
      RangeListStep(ranges, i, next);
      if i > 0 {
        list := list + [Or];
      }
      var one;
      one, next' := EmitRange(ranges[i], next');
      list := list + one;
    }
    assert ranges[..|ranges|] == ranges;
  }

  method EmitRanges(f: Filter, next: nat) returns (sql: seq<Token>, next': nat)
    ensures sql == RangesTokens(f, next) && next' == next + Widths(RangesOf(f))
  {
    hide RangeListTokens;
    sql, next' := [], next;
    if RangesOf(f) != [] {
      sql, next' := EmitRangeList(RangesOf(f), next);
      sql := [And, LPar] + sql + [RPar];
    }
  }

  lemma RangeBindsStep(rs: seq<VolumeRange>, i: nat, first: seq<Bind>)
    requires i < |rs|
    ensures first + RangeListBinds(rs[..i + 1]) == first + RangeListBinds(rs[..i]) + RangeBinds(rs[i])
  {
    hide RangeBinds;
    assert rs[..i + 1][..i] == rs[..i];
  }

  /** The binding loop, separate from the text. */
  method BindValues(f: Filter) returns (binds: seq<Bind>)
    ensures binds == Binds(f)
  {
    binds := [Text(f.tokenId)];
    if f.account.Some? {
      binds := binds + [Text(f.account.value)];
    }
    var ranges := RangesOf(f);
    assert RangeListBinds([]) == [] && binds == FirstBinds(f) + [];
    hide RangeListBinds, FirstBinds, MinValue, MaxValue;
    for i := 0 to |ranges|
      invariant binds == FirstBinds(f) + RangeListBinds(ranges[..i])
    {
      RangeBindsStep(ranges, i, FirstBinds(f));
      binds := binds + [Number(MinValue(ranges[i]))];
      if MaxValue(ranges[i]).Some? {
        binds := binds + [Number(MaxValue(ranges[i]).value)];
      }
    }
    assert ranges[..|ranges|] == ranges;
  }

  /** `get_swaps_by_token` up to ORDER BY. */
  method BuildList(f: Filter) returns (sql: seq<Token>, binds: seq<Bind>)
    ensures sql == ListWhere(f) && binds == Binds(f)
    ensures Placeholders(sql) == From(1, |binds|)
    ensures forall row :: Accepts(sql, binds, row) == Some(Matches(f, row))
  {
    hide RangesTokens, RangeListTokens, RangeListBinds, Binds, Matches, Placeholders, Accepts;
    var nextParam := 2;
    sql := TOKEN_CLAUSE;
    if f.account.Some? {
      sql := sql + ([And] + [Col(AccountId), Eq, Param(nextParam)]);
      nextParam := nextParam + 1;
    }
    if f.tradeType == "BUY" {
      sql := sql + ([And] + [Col(IsBuy), Eq, True]);
    } else if f.tradeType == "SELL" {
      sql := sql + ([And] + [Col(IsBuy), Eq, False]);
    }
    var ranges;
    ranges, nextParam := EmitRanges(f, nextParam);
    sql := sql + ranges;
    binds := BindValues(f);
    assert sql == ListWhere(f);
    PlaceholdersMatchBinds(f);
    forall row ensures Accepts(sql, binds, row) == Some(Matches(f, row)) {
      ListMeansFilter(f, row);
    }
  }

  /** `get_total_count_by_token_with_filters` where it runs a query. */
  method BuildCount(f: Filter) returns (sql: seq<Token>, binds: seq<Bind>)
    ensures sql == CountWhere(f) && binds == Binds(f)
    ensures Placeholders(sql) == From(1, |binds|)
    ensures forall row :: Accepts(sql, binds, row) == Some(Matches(f, row))
  {
    hide RangesTokens, RangeListTokens, RangeListBinds, Binds, Matches, Placeholders, Accepts;
    var nextParam := 2;
    sql := TOKEN_CLAUSE;
    if f.account.Some? {
      sql := sql + ([And] + [Col(AccountId), Eq, Param(nextParam)]);
      nextParam := nextParam + 1;
    }
    var ranges;
    ranges, nextParam := EmitRanges(f, nextParam);
    sql := sql + ranges;
    if f.tradeType == "BUY" {
      sql := sql + ([And] + [Col(IsBuy), Eq, True]);
    } else if f.tradeType == "SELL" {
      sql := sql + ([And] + [Col(IsBuy), Eq, False]);
    }
    binds := BindValues(f);
    assert sql == CountWhere(f);
    PlaceholdersMatchBinds(f);
    forall row ensures Accepts(sql, binds, row) == Some(Matches(f, row)) {
      CountMeansFilter(f, row);
    }
  }
}
