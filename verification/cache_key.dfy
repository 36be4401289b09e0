/**
 Cache keys: the `cache_key!` macro (src/utils/single_flight.rs) joins Debug-rendered arguments with
 colons, and the Redis order key (src/db/redis/mod.rs) is a fixed template. Both are read back here.
 */
module CacheKey {
  import opened Prelude
  import opened Text

  /** The argument types of the call sites; integers of every width render alike. */
  datatype Arg = Str(text: string) | Int(value: int) | Bool(flag: bool)

  /**
   `{:?}` of one character inside a string. `plain` stands for Unicode's "printable and not a
   grapheme extender", which the standard library decides from a table.
   */
  function Escape(plain: char -> bool, c: char): string {
    if c == '\0' then "\\0"
    else if c == '\t' then "\\t"
    else if c == '\r' then "\\r"
    else if c == '\n' then "\\n"
    else if c == '\\' then "\\\\"
    else if c == '\"' then "\\\""
    else if plain(c) then [c]
    else "\\u{" + (Radix(c as nat, 16) + "}")
  }

  function EscapeAll(plain: char -> bool, s: string): string {
    if s == [] then [] else Escape(plain, s[0]) + EscapeAll(plain, s[1..])
  }

  function RenderInt(n: int): string { if n < 0 then "-" + Decimal(-n) else Decimal(n) }

  /** `{:?}` of one argument. */
  function RenderArg(plain: char -> bool, arg: Arg): string {
    match arg
    case Str(text) => "\"" + (EscapeAll(plain, text) + "\"")
    case Int(n) => RenderInt(n)
    case Bool(b) => if b then "true" else "false"
  }

  function Join(plain: char -> bool, args: seq<Arg>): string {
    if args == [] then []
    else if |args| == 1 then RenderArg(plain, args[0])
    else RenderArg(plain, args[0]) + (":" + Join(plain, args[1..]))
  }

  /** `cache_key!(prefix, args..)` */
  function Render(plain: char -> bool, prefix: string, args: seq<Arg>): string {
    prefix + (":" + Join(plain, args))
  }

  // ----- Reading a key back -----

  predicate IsScalar(n: int) { 0 <= n < 0xD800 || 0xE000 <= n < 0x11_0000 }

  /** One possibly escaped character and what follows it. */
  function ParseChar(s: string): (r: Option<(char, string)>)
    ensures r.Some? ==> |r.value.1| < |s|
  {
    if s == [] then None
    else if s[0] != '\\' then Some((s[0], s[1..]))
    else if |s| == 1 then None
    else if s[1] == '0' then Some(('\0', s[2..]))
    else if s[1] == 't' then Some(('\t', s[2..]))
    else if s[1] == 'r' then Some(('\r', s[2..]))
    else if s[1] == 'n' then Some(('\n', s[2..]))
    else if s[1] != 'u' then Some((s[1], s[2..]))
    else if |s| < 3 then None
    else
      var (digits, rest) := SplitAt(s[3..], '}');
      var n := RadixValue(digits, 16);
      if rest == [] || !IsScalar(n) then None else Some((n as char, rest[1..]))
  }

  /** The contents of a string up to its closing quote, and what follows the quote. */
  function ParseText(s: string): (r: Option<(string, string)>)
    ensures r.Some? ==> |r.value.1| < |s|
    decreases |s|
  {
    if s == [] then None
    else if s[0] == '\"' then Some(([], s[1..]))
    else
      match ParseChar(s)
      case None => None
      case Some((c, rest)) =>
        match ParseText(rest)
        case None => None
        case Some((text, after)) => Some(([c] + text, after))
  }

  function ParseInt(s: string): int {
    if s != [] && s[0] == '-' then -RadixValue(s[1..], 10) else RadixValue(s, 10)
  }

  function ParseArg(s: string): (r: Option<(Arg, string)>)
    ensures r.Some? ==> |r.value.1| < |s|
  {
    if s == [] || s[0] == ':' then None
    else if s[0] == '\"' then
      match ParseText(s[1..])
      case None => None
      case Some((text, rest)) => Some((Str(text), rest))
    else
      var (token, rest) := SplitAt(s, ':');
      assert token != [];
      var arg :=
        if token == "true" then Bool(true) else if token == "false" then Bool(false) else Int(ParseInt(token));
      Some((arg, rest))
  }

  function ParseArgs(s: string): Option<seq<Arg>>
    decreases |s|
  {
    match ParseArg(s)
    case None => None
    case Some((arg, rest)) =>
      if rest == [] then Some([arg])
      else if rest[0] != ':' then None
      else
        match ParseArgs(rest[1..])
        case None => None
        case Some(args) => Some([arg] + args)
  }

  function ParseKey(s: string): Option<(string, seq<Arg>)> {
    var (prefix, rest) := SplitAt(s, ':');
    if rest == [] then None
    else if rest == ":" then Some((prefix, []))
    else
      match ParseArgs(rest[1..])
      case None => None
      case Some(args) => Some((prefix, args))
  }

  // ----- Round trip -----

  lemma ParseHexEscape(c: char, rest: string)
    ensures ParseChar("\\u{" + (Radix(c as nat, 16) + "}") + rest) == Some((c, rest))
  {
    hide Radix, RadixValue, SplitAt;
    var digits := Radix(c as nat, 16);
    var s := "\\u{" + (digits + "}") + rest;
    RadixIsDigits(c as nat, 16);
    RadixRoundTrip(c as nat, 16);
    SplitAtStop(digits, "}" + rest, '}');
    assert s[3..] == digits + ("}" + rest);
    assert s[0] == '\\' && s[1] == 'u';
    assert ("}" + rest)[1..] == rest;
  }

  lemma ParseEscape(plain: char -> bool, c: char, rest: string)
    ensures ParseChar(Escape(plain, c) + rest) == Some((c, rest))
    ensures Escape(plain, c)[0] != '\"'
  {
    hide SplitAt, Radix, RadixValue;
    var s := Escape(plain, c) + rest;
    if |Escape(plain, c)| == 1 {
      assert s[1..] == rest;
    } else if |Escape(plain, c)| == 2 {
      assert s[2..] == rest;
    } else {
      ParseHexEscape(c, rest);
    }
  }

  lemma {:induction false} ParseEscaped(plain: char -> bool, text: string, rest: string)
    ensures ParseText(EscapeAll(plain, text) + ("\"" + rest)) == Some((text, rest))
  {
    hide Escape, ParseChar;
    var s := EscapeAll(plain, text) + ("\"" + rest);
    if text == [] {
      assert s[1..] == rest;
    } else {
      var tail := EscapeAll(plain, text[1..]) + ("\"" + rest);
      ParseEscaped(plain, text[1..], rest);
      ParseEscape(plain, text[0], tail);
      assert s == Escape(plain, text[0]) + tail;
      assert text == [text[0]] + text[1..];
    }
  }

  lemma ParseRenderedInt(n: int)
    ensures var s := RenderInt(n);
            ParseInt(s) == n && s != [] && ':' !in s && s[0] != '\"' && s[0] != 't' && s[0] != 'f'
  {
    hide Radix, RadixValue;
    var m := if n < 0 then -n else n;
    RadixIsDigits(m, 10);
    RadixRoundTrip(m, 10);
    if n < 0 {
      assert RenderInt(n)[1..] == Decimal(m);
    }
  }

  lemma ParseRenderedArg(plain: char -> bool, arg: Arg, rest: string)
    requires rest == [] || rest[0] == ':'
    ensures ParseArg(RenderArg(plain, arg) + rest) == Some((arg, rest))
    ensures RenderArg(plain, arg) != []
  {
    hide EscapeAll, ParseText, ParseInt, RenderInt, SplitAt;
    var s := RenderArg(plain, arg) + rest;
    match arg
    case Str(text) =>
      ParseEscaped(plain, text, rest);
      assert s[1..] == EscapeAll(plain, text) + ("\"" + rest);
    case Int(n) =>
      ParseRenderedInt(n);
      SplitAtStop(RenderInt(n), rest, ':');
    case Bool(b) =>
      SplitAtStop(if b then "true" else "false", rest, ':');
  }

  lemma {:induction false} ParseJoined(plain: char -> bool, args: seq<Arg>)
    requires args != []
    ensures Join(plain, args) != [] && ParseArgs(Join(plain, args)) == Some(args)
  {
    hide RenderArg, ParseArg;
    if |args| == 1 {
      ParseRenderedArg(plain, args[0], []);
      assert RenderArg(plain, args[0]) + [] == RenderArg(plain, args[0]);
      assert args == [args[0]];
    } else {
      ParseJoined(plain, args[1..]);
      ParseRenderedArg(plain, args[0], ":" + Join(plain, args[1..]));
      assert (":" + Join(plain, args[1..]))[1..] == Join(plain, args[1..]);
      assert args == [args[0]] + args[1..];
    }
  }

  /**
   Main result: the prefix and every argument can be read back from the rendered key, whatever
   colons, quotes or backslashes the strings contain. No call site's prefix contains a colon.
   */
  lemma KeyRoundTrip(plain: char -> bool, prefix: string, args: seq<Arg>)
    requires ':' !in prefix
    ensures ParseKey(Render(plain, prefix, args)) == Some((prefix, args))
  {
    hide Join, ParseArgs, SplitAt;
    SplitAtStop(prefix, ":" + Join(plain, args), ':');
    assert (":" + Join(plain, args))[1..] == Join(plain, args);
    if args == [] {
      NoArgs(plain);
    } else {
      ParseJoined(plain, args);
    }
  }

  lemma NoArgs(plain: char -> bool)
    ensures Join(plain, []) == [] && ":" + [] == ":"
  {
  }

  /** Different calls never share an entry of the cache. */
  lemma KeyInjective(plain: char -> bool, p: string, xs: seq<Arg>, q: string, ys: seq<Arg>)
    requires ':' !in p && ':' !in q && Render(plain, p, xs) == Render(plain, q, ys)
    ensures p == q && xs == ys
  {
    KeyRoundTrip(plain, p, xs);
    KeyRoundTrip(plain, q, ys);
  }

  // ----- Order lists -----

  datatype OrderType = MarketCap | CreationTime | LatestTrade

  /** What an order list is asked for; `ascending` is the validated direction. */
  datatype Query = Query(kind: OrderType, page: nat, limit: nat, ascending: bool, nsfw: bool)

  function KindText(kind: OrderType): string {
    match kind
    case MarketCap => "market_cap"
    case CreationTime => "creation_time"
    case LatestTrade => "latest_trade"
  }

  function DirectionText(ascending: bool): string { if ascending then "ASC" else "DESC" }

  function BoolText(b: bool): string { if b then "true" else "false" }

  /** The key of the in-process cache. */
  function LocalKey(plain: char -> bool, q: Query): string {
    Render(plain, "order_tokens",
      [Str(KindText(q.kind)), Str(DirectionText(q.ascending)), Int(q.page), Int(q.limit), Bool(q.nsfw)])
  }

  lemma LocalKeyInjective(plain: char -> bool, q: Query, r: Query)
    requires LocalKey(plain, q) == LocalKey(plain, r)
    ensures q == r
  {
    hide Render;
    var xs := [Str(KindText(q.kind)), Str(DirectionText(q.ascending)), Int(q.page), Int(q.limit), Bool(q.nsfw)];
    var ys := [Str(KindText(r.kind)), Str(DirectionText(r.ascending)), Int(r.page), Int(r.limit), Bool(r.nsfw)];
    KeyInjective(plain, "order_tokens", xs, "order_tokens", ys);
    assert xs[0] == ys[0] && xs[1] == ys[1] && xs[2] == ys[2] && xs[3] == ys[3] && xs[4] == ys[4];
    assert KindText(q.kind)[0] == KindText(r.kind)[0];
    assert DirectionText(q.ascending)[0] == DirectionText(r.ascending)[0];
  }

  /** The Redis key, piece by piece. */
  function RedisOrderKey(q: Query): string {
    "order:" + (KindText(q.kind) + (":response:page:" + (Decimal(q.page) + AfterPage(q))))
  }

  function AfterPage(q: Query): string {
    "_limit:" + (Decimal(q.limit) + ("_direction:" + (DirectionText(q.ascending) + ("_nsfw:" + BoolText(q.nsfw)))))
  }

  lemma AfterPageInjective(q: Query, r: Query)
    requires AfterPage(q) == AfterPage(r)
    ensures q.limit == r.limit && q.ascending == r.ascending && q.nsfw == r.nsfw
  {
    hide Radix;
    var xq := "_direction:" + (DirectionText(q.ascending) + ("_nsfw:" + BoolText(q.nsfw)));
    var xr := "_direction:" + (DirectionText(r.ascending) + ("_nsfw:" + BoolText(r.nsfw)));
    DigitsThen(q.limit, xq, r.limit, xr, AfterPage(q)[7..], AfterPage(r)[7..]);
    assert xq[11] == xr[11];
    assert q.ascending == r.ascending;
    var at := 11 + |DirectionText(q.ascending)| + 6;
    assert xq[at] == BoolText(q.nsfw)[0] && xr[at] == BoolText(r.nsfw)[0];
  }

  /** A number is read off the front of a text in which an underscore follows it. */
  lemma DigitsThen(m: nat, x: string, n: nat, y: string, s: string, t: string)
    requires s == Decimal(m) + x && t == Decimal(n) + y && s == t
    requires x != [] && y != [] && x[0] == '_' && y[0] == '_'
    ensures m == n && x == y
  {
    RadixIsDigits(m, 10);
    RadixIsDigits(n, 10);
    SplitAtStop(Decimal(m), x, '_');
    SplitAtStop(Decimal(n), y, '_');
    RadixRoundTrip(m, 10);
    RadixRoundTrip(n, 10);
  }

  lemma RedisOrderKeyInjective(q: Query, r: Query)
    requires RedisOrderKey(q) == RedisOrderKey(r)
    ensures q == r
  {
    hide Radix, AfterPage;
    var s, t := RedisOrderKey(q), RedisOrderKey(r);
    assert s[6] == KindText(q.kind)[0] && t[6] == KindText(r.kind)[0];
    assert q.kind == r.kind;
    var at := 6 + |KindText(q.kind)| + 15;
    assert s[at..] == Decimal(q.page) + AfterPage(q) && t[at..] == Decimal(r.page) + AfterPage(r);
    AfterPageStarts(q);
    AfterPageStarts(r);
    DigitsThen(q.page, AfterPage(q), r.page, AfterPage(r), s[at..], t[at..]);
    AfterPageInjective(q, r);
  }

  lemma AfterPageStarts(q: Query)
    ensures AfterPage(q) != [] && AfterPage(q)[0] == '_'
  {
  }
}
