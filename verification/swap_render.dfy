/**
 Terminal events as they are published (src/services/terminal/mod.rs): amounts in wei become decimal
 strings, and the token and quote sides of a row are placed by the order of their addresses.
 Decimals are exact rationals here.
 */
module SwapRender {
  import opened Arithmetic
  import opened Prelude
  import opened Text

  // ----- Decimal strings -----

  datatype Ratio = Ratio(num: nat, den: nat)

  /** The number digits / 10^scale. */
  datatype Dec = Dec(digits: int, scale: nat)

  /** `normalized`: no trailing zeros after the point. */
  function Strip(n: nat, scale: nat): (nat, nat)
    decreases scale
  {
    if scale > 0 && n % 10 == 0 then Strip(n / 10, scale - 1) else (n, scale)
  }

  /** The digits left of the point, and the `scale` digits right of it. */
  function Whole(n: nat, scale: nat): nat
    decreases scale
  {
    if scale == 0 then n else Whole(n / 10, scale - 1)
  }

  function Fraction(n: nat, scale: nat): (s: string)
    ensures |s| == scale && AllDigits(s, 10)
    decreases scale
  {
    if scale == 0 then [] else Fraction(n / 10, scale - 1) + [DigitChar(n % 10)]
  }

  /** `normalized().to_plain_string()` of n / 10^scale. */
  function Plain(n: nat, scale: nat): string {
    var (m, k) := Strip(n, scale);
    if k == 0 then Decimal(m) else Decimal(Whole(m, k)) + ("." + Fraction(m, k))
  }

  const PLACES: nat := 50

  function ScaledDown(r: Ratio): nat
    requires r.den > 0
  {
    Floor(Product(r.num, Pow(10, PLACES)), r.den)
  }

  /** `to_truncated_string`: cut off after 50 decimals. */
  function ToTruncated(r: Ratio): string
    requires r.den > 0
  {
    Plain(ScaledDown(r), PLACES)
  }

  /** Reads a plain decimal string. */
  function ParsePlain(s: string): Dec {
    var (whole, rest) := SplitAt(s, '.');
    var fraction := if rest == [] then [] else rest[1..];
    Dec(RadixValue(whole + fraction, 10), |fraction|)
  }

  lemma {:induction false} DigitsJoin(n: nat, scale: nat)
    ensures RadixValue(Decimal(Whole(n, scale)) + Fraction(n, scale), 10) == n
    decreases scale
  {
    hide Radix;
    if scale == 0 {
      RadixRoundTrip(n, 10);
      assert Decimal(n) + Fraction(n, 0) == Decimal(n);
    } else {
      DigitsJoin(n / 10, scale - 1);
      var w, f := Decimal(Whole(n, scale)), Fraction(n / 10, scale - 1);
      var s := w + Fraction(n, scale);
      assert s[..|s| - 1] == w + f && s[|s| - 1] == DigitChar(n % 10);
    }
  }

  /** The string stands for exactly the stripped number. */
  lemma ParsePlainOfPlain(n: nat, scale: nat)
    ensures var (m, k) := Strip(n, scale); ParsePlain(Plain(n, scale)) == Dec(m, k)
  {
    hide Radix, RadixValue, SplitAt, Strip, Whole, Fraction;
    var (m, k) := Strip(n, scale);
    RadixIsDigits(Whole(m, k), 10);
    DigitsJoin(m, k);
    if k == 0 {
      NoFraction(m);
      SplitAtStop(Decimal(m), [], '.');
      assert Decimal(m) + [] == Decimal(m);
    } else {
      var whole, rest := Decimal(Whole(m, k)), "." + Fraction(m, k);
      SplitAtStop(whole, rest, '.');
      assert rest[1..] == Fraction(m, k);
    }
  }

  lemma NoFraction(m: nat)
    ensures Whole(m, 0) == m && Fraction(m, 0) == []
  {
  }

  /** Stripping keeps the value and leaves one normal form. */
  lemma {:induction false} StripKeepsValue(n: nat, scale: nat)
    ensures var (m, k) := Strip(n, scale);
            k <= scale && m * Pow(10, scale - k) == n && (k == 0 || m % 10 != 0)
    decreases scale
  {
    if scale > 0 && n % 10 == 0 {
      StripKeepsValue(n / 10, scale - 1);
      var (m, k) := Strip(n, scale);
      TimesTen(m, Pow(10, scale - 1 - k));
    }
  }

  lemma TimesTen(m: nat, p: nat)
    ensures m * (10 * p) == 10 * (m * p)
  {
  }

  lemma {:induction false} StripScaled(n: nat, scale: nat, j: nat)
    ensures Strip(n * Pow(10, j), scale + j) == Strip(n, scale)
    decreases j
  {
    if j == 0 {
    } else {
      TimesTen(n, Pow(10, j - 1));
      ShiftBack(n * Pow(10, j), n * Pow(10, j - 1));
      StripScaled(n, scale, j - 1);
    }
  }

  lemma ShiftBack(x: nat, y: nat)
    requires x == 10 * y
    ensures x % 10 == 0 && x / 10 == y
  {
  }

  lemma {:induction false} PowAdd(i: nat, j: nat)
    ensures Pow(10, i + j) == Pow(10, i) * Pow(10, j)
  {
    if i == 0 {
    } else {
      PowAdd(i - 1, j);
      TimesTen(Pow(10, j), Pow(10, i - 1));
    }
  }

  // ----- Amounts in wei -----

  function Unit(): (u: nat)
    ensures u > 0
  {
    Pow(10, 18)
  }

  /** `amount / 10^18` rendered. */
  function RenderWei(wei: nat): string { ToTruncated(Ratio(wei, Unit())) }

  /** The wei amount a decimal string of at most 18 places stands for. */
  function WeiOf(s: string): Option<int> {
    var d := ParsePlain(s);
    if d.scale <= 18 then Some(d.digits * Pow(10, 18 - d.scale)) else None
  }

  /** Fifty decimals never cut a wei amount: the string reads back as exactly that amount. */
  lemma WeiRoundTrip(wei: nat)
    ensures WeiOf(RenderWei(wei)) == Some(wei)
  {
    hide Pow, Strip, ParsePlain, Plain;
    PowAdd(32, 18);
    ExactQuotient(wei, Pow(10, 32), Unit(), Pow(10, PLACES));
    assert ScaledDown(Ratio(wei, Unit())) == wei * Pow(10, 32);
    StripScaled(wei, 18, 32);
    ParsePlainOfPlain(wei * Pow(10, 32), 50);
    StripKeepsValue(wei, 18);
  }

  lemma ExactQuotient(n: nat, p: nat, u: nat, q: nat)
    requires u > 0 && q == p * u
    ensures Floor(Product(n, q), u) == n * p
  {
    hide Floor;
    assert n * q == (n * p) * u;
    FloorBounds(n * q, u);
    Distribute(n * p, 0, u);
    FloorUnique(Floor(n * q, u), n * p, u, n * q);
  }

  // ----- Prices -----

  /** A quotient of two decimals; `None` where the library divides by zero and panics. */
  function Divide(x: Ratio, y: Ratio): Option<Ratio> {
    if y.num == 0 then None else Some(Ratio(x.num * y.den, x.den * y.num))
  }

  function RenderPrice(numerator: nat, denominator: nat): Option<string> {
    match Divide(Ratio(numerator, Unit()), Ratio(denominator, Unit()))
    case None => None
    case Some(r) => if r.den > 0 then Some(ToTruncated(r)) else None
  }

  /** `s` is x / y cut off by less than 10^-50. */
  predicate TruncationOf(s: string, x: nat, y: nat) {
    var d := ParsePlain(s);
    d.scale <= 50 && IsFloor(d.digits * Pow(10, 50 - d.scale), x * Pow(10, 50), y)
  }

  lemma PriceIsTruncation(x: nat, y: nat)
    requires y > 0
    ensures RenderPrice(x, y).Some? && TruncationOf(RenderPrice(x, y).value, x, y)
  {
    hide Pow, Strip, ParsePlain, Plain, RadixValue, IsFloor, ScaledDown;
    var u := Unit();
    PositiveProduct(u, y);
    var r := Ratio(x * u, u * y);
    var p := ScaledDown(r);
    ParsePlainOfPlain(p, PLACES);
    StripKeepsValue(p, PLACES);
    PriceFloor(x, y, u);
  }

  lemma PositiveProduct(u: nat, y: nat)
    requires u > 0 && y > 0
    ensures u * y > 0
  {
  }

  lemma PriceFloor(x: nat, y: nat, u: nat)
    requires u > 0 && y > 0 && u * y > 0
    ensures IsFloor(ScaledDown(Ratio(x * u, u * y)), x * Pow(10, PLACES), y)
  {
    hide Pow, Floor;
    var p, q := ScaledDown(Ratio(x * u, u * y)), Pow(10, PLACES);
    FloorBounds(x * u * q, u * y);
    Regroup(x, u, q);
    Regroup(p, u, y);
    Regroup(p + 1, u, y);
    CancelScale(p * y, x * q, u);
    CancelScale(x * q, (p + 1) * y, u);
  }

  lemma Regroup(a: nat, u: nat, b: nat)
    ensures a * u * b == a * b * u && a * (u * b) == a * b * u
  {
  }

  // ----- Which asset comes first -----

  /** The pair's (asset0, asset1) and whether the quote is asset0. */
  function OrderAssets(token: string, quote: string): (string, string, bool) {
    if Less(Lower(quote), Lower(token)) then (quote, token, true) else (token, quote, false)
  }

  /** The pair is the same whichever of the two is the token, unless they are equal up to case. */
  lemma OrderIsSymmetric(token: string, quote: string)
    requires Lower(token) != Lower(quote)
    ensures var (a, b, first) := OrderAssets(token, quote);
            OrderAssets(quote, token) == (a, b, !first) && Less(Lower(a), Lower(b))
            && a == (if first then quote else token) && b == (if first then token else quote)
  {
    LessTotal(Lower(token), Lower(quote));
  }

  // ----- Swap, mint and burn rows -----

  /** What all three tables hold; a swap's reserves may be missing. */
  datatype Pool = Pool(
    token: string, quote: string, tokenAmount: nat, quoteAmount: nat,
    tokenReserve: Option<nat>, quoteReserve: Option<nat>)

  datatype SwapText = SwapText(
    in0: Option<string>, in1: Option<string>, out0: Option<string>, out1: Option<string>,
    price: string, reserve0: string, reserve1: string)

  datatype LiquidityText = LiquidityText(amount0: string, amount1: string, reserve0: string, reserve1: string)

  function OrZero(n: Option<nat>): nat { if n.Some? then n.value else 0 }

  /** The amount-bearing half of `convert_swap_event`. */
  function RenderSwap(row: Pool, isBuy: bool): Option<SwapText> {
    var (_, _, quoteFirst) := OrderAssets(row.token, row.quote);
    var quote, token := RenderWei(row.quoteAmount), RenderWei(row.tokenAmount);
    var quoteReserve, tokenReserve := RenderWei(OrZero(row.quoteReserve)), RenderWei(OrZero(row.tokenReserve));
    var price := if quoteFirst then RenderPrice(row.tokenAmount, row.quoteAmount)
                 else RenderPrice(row.quoteAmount, row.tokenAmount);
    match price
    case None => None
    case Some(p) =>
      match (quoteFirst, isBuy)
      case (true, true) => Some(SwapText(Some(quote), None, None, Some(token), p, quoteReserve, tokenReserve))
      case (true, false) => Some(SwapText(None, Some(token), Some(quote), None, p, quoteReserve, tokenReserve))
      case (false, true) => Some(SwapText(None, Some(quote), Some(token), None, p, tokenReserve, quoteReserve))
      case (false, false) => Some(SwapText(Some(token), None, None, Some(quote), p, tokenReserve, quoteReserve))
  }

  /** The same half of `convert_mint_event` and `convert_burn_event`. */
  function RenderLiquidity(row: Pool): LiquidityText {
    var (_, _, quoteFirst) := OrderAssets(row.token, row.quote);
    var quote, token := RenderWei(row.quoteAmount), RenderWei(row.tokenAmount);
    var quoteReserve, tokenReserve := RenderWei(OrZero(row.quoteReserve)), RenderWei(OrZero(row.tokenReserve));
    if quoteFirst then LiquidityText(quote, token, quoteReserve, tokenReserve)
    else LiquidityText(token, quote, tokenReserve, quoteReserve)
  }

  /** What the pool holds or moved of one of its two assets, by the asset's address. */
  function AmountOf(row: Pool, asset: string): nat { if asset == row.quote then row.quoteAmount else row.tokenAmount }

  function ReserveOf(row: Pool, asset: string): nat {
    var reserve := if asset == row.quote then row.quoteReserve else row.tokenReserve;
    match reserve
    case Some(wei) => wei
    case None => 0
  }

  predicate Reads(text: Option<string>, wei: nat) { text.Some? && WeiOf(text.value) == Some(wei) }

  /**
   What a published swap has to say: exactly one side is paid in and the other one out, on a buy the
   quote is paid in, on a sale the token; every amount reads back as the row's exact wei of the pair's
   own asset0 or asset1; the price is asset1 per asset0 cut off by less than 10^-50.
   */
  predicate SwapFits(row: Pool, isBuy: bool, t: SwapText) {
    var (a0, a1, _) := OrderAssets(row.token, row.quote);
    var paidIn := if isBuy then row.quote else row.token;
    && (t.in0.Some? <==> a0 == paidIn) && (t.in1.Some? <==> a1 == paidIn)
    && (t.out0.Some? <==> t.in1.Some?) && (t.out1.Some? <==> t.in0.Some?) && (t.in0.Some? <==> t.in1.None?)
    && Reads(if t.in0.Some? then t.in0 else t.out0, AmountOf(row, a0))
    && Reads(if t.in1.Some? then t.in1 else t.out1, AmountOf(row, a1))
    && Reads(Some(t.reserve0), ReserveOf(row, a0)) && Reads(Some(t.reserve1), ReserveOf(row, a1))
    && TruncationOf(t.price, AmountOf(row, a1), AmountOf(row, a0))
  }

  /** Mints and burns: each amount and reserve on the pair's own side, exact to the wei. */
  predicate LiquidityFits(row: Pool, t: LiquidityText) {
    var (a0, a1, _) := OrderAssets(row.token, row.quote);
    && Reads(Some(t.amount0), AmountOf(row, a0)) && Reads(Some(t.amount1), AmountOf(row, a1))
    && Reads(Some(t.reserve0), ReserveOf(row, a0)) && Reads(Some(t.reserve1), ReserveOf(row, a1))
  }

  /** The amount of the asset that comes first in the pair. */
  function FirstAmount(row: Pool): nat {
    AmountOf(row, OrderAssets(row.token, row.quote).0)
  }

  /** Main result. A swap row renders unless asset0's amount is zero, and then says what it should. */
  lemma SwapIsFaithful(row: Pool, isBuy: bool)
    requires row.token != row.quote
    ensures RenderSwap(row, isBuy).Some? <==> FirstAmount(row) > 0
    ensures RenderSwap(row, isBuy).Some? ==> SwapFits(row, isBuy, RenderSwap(row, isBuy).value)
  {
    hide Less, WeiOf, RenderWei, TruncationOf, RenderPrice;
    var (a0, a1, quoteFirst) := OrderAssets(row.token, row.quote);
    WeiRoundTrip(row.quoteAmount);
    WeiRoundTrip(row.tokenAmount);
    WeiRoundTrip(OrZero(row.quoteReserve));
    WeiRoundTrip(OrZero(row.tokenReserve));
    var x, y := AmountOf(row, a1), AmountOf(row, a0);
    if y > 0 {
      PriceIsTruncation(x, y);
    } else {
      NoPrice(x);
    }
  }

  lemma NoPrice(x: nat)
    ensures RenderPrice(x, 0) == None
  {
  }

  /** Mints and burns put each amount and reserve on the pair's own side, exactly. */
  lemma LiquidityIsFaithful(row: Pool)
    requires row.token != row.quote
    ensures LiquidityFits(row, RenderLiquidity(row))
  {
    hide Less, WeiOf, RenderWei;
    WeiRoundTrip(row.quoteAmount);
    WeiRoundTrip(row.tokenAmount);
    WeiRoundTrip(OrZero(row.quoteReserve));
    WeiRoundTrip(OrZero(row.tokenReserve));
  }
}
