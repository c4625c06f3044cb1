/**
 Execution pricing and the ticket's margin (`clients/js/src/pricing.ts`), with sizing by notional
 (`clients/js/src/sizing.ts`).
 */
module Pricing {
  import opened BigInts
  import opened Results
  import opened Units
  import opened Desk

  const MAX_TOTAL_SPREAD_BPS: nat := 5_000
  const LOT_SIZE_BASE: nat := 100_000_000_000_000
  const RATE_PRECISION: nat := 1_000_000_000

  datatype Side = Buy | Sell

  function SideForOpen(direction: Direction): Side {
    if direction.Long? then Buy else Sell
  }

  function SideForClose(direction: Direction): Side {
    if direction.Long? then Sell else Buy
  }

  function ConfidenceSpreadBps(confidenceBps: nat, multiplierBps: nat): int {
    MulDivCeil(confidenceBps, multiplierBps, BPS_PRECISION)
  }

  function SkewDelta(baseOiLong: nat, baseOiShort: nat, signedSizeDelta: int): int {
    var before := baseOiLong - baseOiShort;
    Abs(before + signedSizeDelta) - Abs(before)
  }

  function SkewImpactBps(delta: int, ratePerUnit: nat): int {
    if delta <= 0 || ratePerUnit == 0 then 0
    else MulDivCeil(delta, ratePerUnit, LOT_SIZE_BASE * RATE_PRECISION)
  }

  function TotalSpreadBps(baseSpreadBps: nat, confidenceSpread: int, skewImpact: int): Option<int> {
    var total := baseSpreadBps + confidenceSpread + skewImpact;
    if total > MAX_TOTAL_SPREAD_BPS then None else Some(total)
  }

  function ExecutionPrice(oraclePrice: int, spreadBps: int, side: Side): Option<int> {
    if spreadBps > MAX_TOTAL_SPREAD_BPS then None
    else if oraclePrice <= 0 then None
    else
      var adjustment := MulDivCeil(oraclePrice, spreadBps, BPS_PRECISION);
      var exec := if side.Buy? then oraclePrice + adjustment else oraclePrice - adjustment;
      if exec <= 0 then None else Some(exec)
  }

  function NotionalInQuote(sizeBase: int, price: int): int {
    MulDivCeil(sizeBase, price, NOTIONAL_DIVISOR)
  }

  function EffectiveLeverage(notional: int, collateral: int): Option<int> {
    if collateral == 0 then None
    else Some(Quot(notional, collateral) + (if Rem(notional, collateral) == 0 then 0 else 1))
  }

  function InitialMargin(notional: int, imrBps: nat): int {
    MulDivCeil(notional, imrBps, BPS_PRECISION)
  }

  datatype SpreadParams = SpreadParams(
    baseSpreadBps: nat,
    confSpreadMultiplierBps: nat,
    skewImpactBpsPerUnit: nat,
    baseOiLong: nat,
    baseOiShort: nat)

  datatype OpenQuote = OpenQuote(spreadBps: int, execPrice: int, notional: int)

  function SignedDelta(sizeBase: nat, side: Side): int {
    if side.Buy? then sizeBase else 0 - sizeBase
  }

  /** The impact of an order on the skew of the book it meets. */
  function SkewImpact(market: SpreadParams, sizeBase: nat, side: Side): int {
    SkewImpactBps(
      SkewDelta(market.baseOiLong, market.baseOiShort, SignedDelta(sizeBase, side)), market.skewImpactBpsPerUnit)
  }

  function Spread(market: SpreadParams, confidenceBps: nat, sizeBase: nat, side: Side): Option<int> {
    TotalSpreadBps(
      market.baseSpreadBps,
      ConfidenceSpreadBps(confidenceBps, market.confSpreadMultiplierBps),
      SkewImpact(market, sizeBase, side))
  }

  function QuoteOpen(
    market: SpreadParams, oraclePrice: int, confidenceBps: nat, sizeBase: nat, side: Side): Option<OpenQuote>
  {
    var spread := Spread(market, confidenceBps, sizeBase, side);
    if spread.None? then None
    else
      var execPrice := ExecutionPrice(oraclePrice, spread.value, side);
      if execPrice.None? then None
      else Some(OpenQuote(spread.value, execPrice.value, NotionalInQuote(sizeBase, execPrice.value)))
  }

  function DivCeil(a: int, d: int): int
    requires d != 0
  {
    Quot(a, d) + (if Rem(a, d) == 0 then 0 else 1)
  }

  function MinCollateralFor(notional: int, leverage: nat, imrBps: nat): int
    requires leverage > 0
  {
    var byLeverage := DivCeil(notional, leverage);
    var byImr := InitialMargin(notional, imrBps);
    if byLeverage > byImr then byLeverage else byImr
  }

  // --- the spread -------------------------------------------------------------------------------

  /** The worse price of two for the party trading on `side`. */
  predicate FillNoBetter(side: Side, price: int, than: int) {
    if side.Buy? then price >= than else price <= than
  }

  /** A larger order leaves the book at least as skewed, once improvements count for nothing. */
  lemma SkewImpactMono(market: SpreadParams, small: nat, large: nat, side: Side)
    requires small <= large
    ensures 0 <= SkewImpact(market, small, side) <= SkewImpact(market, large, side)
  {
    var rate := market.skewImpactBpsPerUnit;
    var s := SkewDelta(market.baseOiLong, market.baseOiShort, SignedDelta(small, side));
    var l := SkewDelta(market.baseOiLong, market.baseOiShort, SignedDelta(large, side));
    assert s <= 0 || s <= l;
    if s > 0 {
      MulDivCeilMono(s, l, rate, rate, LOT_SIZE_BASE * RATE_PRECISION);
    } else if l > 0 {
      MulDivCeilMono(l, l, rate, rate, LOT_SIZE_BASE * RATE_PRECISION);
    }
  }

  lemma SpreadMono(market: SpreadParams, confidenceBps: nat, small: nat, large: nat, side: Side)
    requires small <= large && Spread(market, confidenceBps, large, side).Some?
    ensures Spread(market, confidenceBps, small, side).Some?
    ensures 0 <= Spread(market, confidenceBps, small, side).value <= Spread(market, confidenceBps, large, side).value
  {
    SkewImpactMono(market, small, large, side);
    var multiplier := market.confSpreadMultiplierBps;
    MulDivCeilMono(confidenceBps, confidenceBps, multiplier, multiplier, BPS_PRECISION);
  }

  /** Every fill is on the trader's wrong side of the oracle, strictly so for a positive spread. */
  lemma FillIsAdverse(oraclePrice: int, spreadBps: int, side: Side)
    requires spreadBps >= 0 && ExecutionPrice(oraclePrice, spreadBps, side).Some?
    ensures var exec := ExecutionPrice(oraclePrice, spreadBps, side).value;
      FillNoBetter(side, exec, oraclePrice) && (exec == oraclePrice <==> spreadBps == 0)
  {
    MulDivCeilIsCeil(oraclePrice, spreadBps, BPS_PRECISION);
    CeilGalois(oraclePrice * spreadBps, BPS_PRECISION, 0);
    MulMono(0, spreadBps, oraclePrice);
    if spreadBps > 0 {
      MulMono(1, spreadBps, oraclePrice);
    }
  }

  /** And it is away from the oracle by the least distance that covers the spread. */
  lemma FillCoversTheSpread(oraclePrice: int, spreadBps: int, side: Side, k: nat)
    requires spreadBps >= 0 && ExecutionPrice(oraclePrice, spreadBps, side).Some?
    ensures Distance(oraclePrice, ExecutionPrice(oraclePrice, spreadBps, side).value) <= k <==>
            oraclePrice * spreadBps <= k * BPS_PRECISION
  {
    MulMono(0, oraclePrice, spreadBps);
    MulDivCeilIsCeil(oraclePrice, spreadBps, BPS_PRECISION);
    CeilGalois(oraclePrice * spreadBps, BPS_PRECISION, k);
  }

  /**
   A quote is given exactly when the oracle has a price and the spread is within the ceiling, except
   for a sale at an oracle price of one unit, where any spread leaves nothing.
   */
  lemma QuoteIsGivenIff(market: SpreadParams, oraclePrice: int, confidenceBps: nat, sizeBase: nat, side: Side)
    ensures QuoteOpen(market, oraclePrice, confidenceBps, sizeBase, side).Some? <==>
      var spread := Spread(market, confidenceBps, sizeBase, side);
      oraclePrice > 0 && spread.Some? && !(side.Sell? && oraclePrice == 1 && spread.value > 0)
  {
    var spread := Spread(market, confidenceBps, sizeBase, side);
    if oraclePrice > 0 && spread.Some? {
      SpreadMono(market, confidenceBps, sizeBase, sizeBase, side);
      var n := oraclePrice * spread.value;
      MulMono(0, oraclePrice, spread.value);
      MulMono(spread.value, MAX_TOTAL_SPREAD_BPS, oraclePrice);
      MulDivCeilIsCeil(oraclePrice, spread.value, BPS_PRECISION);
      CeilGalois(n, BPS_PRECISION, oraclePrice - 1);
    }
  }

  /**
   What an order of `sizeBase` adds to the imbalance of the book, base units held long against base
   units held short, before and after it: a buy opens a long, a sell a short.
   */
  function Worsening(market: SpreadParams, sizeBase: nat, side: Side): int {
    match side
    case Buy => Abs(market.baseOiLong + sizeBase - market.baseOiShort) - Abs(market.baseOiLong - market.baseOiShort)
    case Sell => Abs(market.baseOiLong - (market.baseOiShort + sizeBase)) - Abs(market.baseOiLong - market.baseOiShort)
  }

  /** What the spread of every order holds: the base, and the confidence's share rounded up. */
  function FixedSpread(market: SpreadParams, confidenceBps: nat): int {
    market.baseSpreadBps + Ceil(confidenceBps * market.confSpreadMultiplierBps, 10_000)
  }

  /**
   Beyond that the spread is the least number of basis points that covers the worsening at the market's
   rate per hundred thousand units; and there is none exactly when that takes it past 50%.
   */
  lemma SpreadCoversTheWorsening(market: SpreadParams, confidenceBps: nat, sizeBase: nat, side: Side, k: nat)
    ensures var spread := Spread(market, confidenceBps, sizeBase, side);
      spread.Some? ==>
        && FixedSpread(market, confidenceBps) <= spread.value <= 5_000
        && (spread.value <= FixedSpread(market, confidenceBps) + k <==>
              Worsening(market, sizeBase, side) * market.skewImpactBpsPerUnit
              <= k * (100_000_000_000_000 * 1_000_000_000))
    ensures Spread(market, confidenceBps, sizeBase, side).Some? <==>
            && FixedSpread(market, confidenceBps) <= 5_000
            && Worsening(market, sizeBase, side) * market.skewImpactBpsPerUnit
               <= (5_000 - FixedSpread(market, confidenceBps)) * (100_000_000_000_000 * 1_000_000_000)
  {
    var multiplier := market.confSpreadMultiplierBps;
    MulDivCeilMono(confidenceBps, confidenceBps, multiplier, multiplier, BPS_PRECISION);
    MulDivCeilIsCeil(confidenceBps, multiplier, BPS_PRECISION);
    SkewImpactMono(market, sizeBase, sizeBase, side);
    var worse := Worsening(market, sizeBase, side);
    ImpactCovers(worse, market.skewImpactBpsPerUnit, k);
    if FixedSpread(market, confidenceBps) <= 5_000 {
      ImpactCovers(worse, market.skewImpactBpsPerUnit, 5_000 - FixedSpread(market, confidenceBps));
    }
  }

  lemma ImpactCovers(worse: int, rate: nat, k: nat)
    ensures SkewImpactBps(worse, rate) <= k <==> worse * rate <= k * (LOT_SIZE_BASE * RATE_PRECISION)
  {
    if worse <= 0 {
      MulMono(worse, 0, rate);
    } else {
      MulMono(0, worse, rate);
      MulDivCeilIsCeil(worse, rate, LOT_SIZE_BASE * RATE_PRECISION);
      CeilGalois(worse * rate, LOT_SIZE_BASE * RATE_PRECISION, k);
      if rate == 0 {
        assert worse * rate == 0;
      }
    }
  }

  /** The fill and the notional of a quote, from its spread: each the least that covers what it stands for. */
  lemma QuoteCovers(
      market: SpreadParams, oraclePrice: int, confidenceBps: nat, sizeBase: nat, side: Side, k: nat)
    ensures var q := QuoteOpen(market, oraclePrice, confidenceBps, sizeBase, side);
      q.Some? ==>
        && Spread(market, confidenceBps, sizeBase, side) == Some(q.value.spreadBps)
        && (Distance(oraclePrice, q.value.execPrice) <= k <==> oraclePrice * q.value.spreadBps <= k * 10_000)
        && (q.value.notional <= k <==> sizeBase * q.value.execPrice <= k * 1_000_000_000_000)
  {
    var q := QuoteOpen(market, oraclePrice, confidenceBps, sizeBase, side);
    if q.Some? {
      QuoteIsAdverse(market, oraclePrice, confidenceBps, sizeBase, side);
      FillCoversTheSpread(oraclePrice, q.value.spreadBps, side, k);
      MulMono(0, sizeBase, q.value.execPrice);
      MulDivCeilIsCeil(sizeBase, q.value.execPrice, NOTIONAL_DIVISOR);
      CeilGalois(sizeBase * q.value.execPrice, NOTIONAL_DIVISOR, k);
    }
  }

  /**
   On a fixed book a larger order is never quoted where a smaller one on the same side is not, and
   never at a better price, although part of it may be helping the book balance.
   */
  lemma LargerOrderNeverFillsBetter(
      market: SpreadParams, oraclePrice: int, confidenceBps: nat, small: nat, large: nat, side: Side)
    requires small <= large
    ensures var s := QuoteOpen(market, oraclePrice, confidenceBps, small, side);
      var l := QuoteOpen(market, oraclePrice, confidenceBps, large, side);
      l.Some? ==> s.Some? && FillNoBetter(side, l.value.execPrice, s.value.execPrice)
  {
    if QuoteOpen(market, oraclePrice, confidenceBps, large, side).Some? {
      SpreadMono(market, confidenceBps, small, large, side);
      var s := Spread(market, confidenceBps, small, side).value;
      var l := Spread(market, confidenceBps, large, side).value;
      MulDivCeilMono(oraclePrice, oraclePrice, s, l, BPS_PRECISION);
    }
  }

  /** A quoted fill is adverse to the oracle, whatever the book, the confidence and the size. */
  lemma QuoteIsAdverse(market: SpreadParams, oraclePrice: int, confidenceBps: nat, sizeBase: nat, side: Side)
    ensures var q := QuoteOpen(market, oraclePrice, confidenceBps, sizeBase, side);
      q.Some? ==>
        && 0 <= q.value.spreadBps <= MAX_TOTAL_SPREAD_BPS && q.value.execPrice > 0
        && FillNoBetter(side, q.value.execPrice, oraclePrice)
        && (q.value.execPrice == oraclePrice <==> q.value.spreadBps == 0)
  {
    if QuoteOpen(market, oraclePrice, confidenceBps, sizeBase, side).Some? {
      SpreadMono(market, confidenceBps, sizeBase, sizeBase, side);
      FillIsAdverse(oraclePrice, Spread(market, confidenceBps, sizeBase, side).value, side);
    }
  }

  /** At one oracle price no buy fills below any sell, across different books and sizes. */
  lemma BuyNeverBelowSell(
      bookA: SpreadParams, bookB: SpreadParams, oraclePrice: int, confA: nat, confB: nat, sizeA: nat, sizeB: nat)
    ensures var buy := QuoteOpen(bookA, oraclePrice, confA, sizeA, Buy);
      var sell := QuoteOpen(bookB, oraclePrice, confB, sizeB, Sell);
      buy.Some? && sell.Some? ==> sell.value.execPrice <= buy.value.execPrice
  {
    QuoteIsAdverse(bookA, oraclePrice, confA, sizeA, Buy);
    QuoteIsAdverse(bookB, oraclePrice, confB, sizeB, Sell);
  }

  /**
   A round trip at an unchanged oracle price never gains. Opened on one book and closed on any other,
   in either direction, it shows a loss exactly when some leg has a spread and the conversion a rate.
   */
  lemma RoundTripLoses(
      direction: Direction, sizeBase: nat, oraclePrice: int, c: Conversion,
      opening: SpreadParams, confAtOpen: nat, closing: SpreadParams, confAtClose: nat)
    requires sizeBase > 0
    ensures var enter := QuoteOpen(opening, oraclePrice, confAtOpen, sizeBase, SideForOpen(direction));
      var leave := QuoteOpen(closing, oraclePrice, confAtClose, sizeBase, SideForClose(direction));
      enter.Some? && leave.Some? ==>
        var pnl := EstimatePnl(direction, sizeBase, enter.value.execPrice, leave.value.execPrice, c);
        && pnl <= 0
        && (pnl < 0 <==> Convertible(c) && (enter.value.spreadBps > 0 || leave.value.spreadBps > 0))
  {
    QuoteIsAdverse(opening, oraclePrice, confAtOpen, sizeBase, SideForOpen(direction));
    QuoteIsAdverse(closing, oraclePrice, confAtClose, sizeBase, SideForClose(direction));
    var enter := QuoteOpen(opening, oraclePrice, confAtOpen, sizeBase, SideForOpen(direction));
    var leave := QuoteOpen(closing, oraclePrice, confAtClose, sizeBase, SideForClose(direction));
    if enter.Some? && leave.Some? {
      LosesIffAgainst(direction, sizeBase, enter.value.execPrice, leave.value.execPrice, c);
      PnlAtEntryIsZero(direction, sizeBase, enter.value.execPrice, c);
      PnlFollowsPrice(direction, sizeBase, enter.value.execPrice, leave.value.execPrice, enter.value.execPrice, c);
    }
  }

  // --- the margin --------------------------------------------------------------------------------

  /** The program's two checks on an open, at `collateral`. */
  predicate Accepts(notional: int, collateral: nat, leverage: nat, imrBps: nat) {
    && EffectiveLeverage(notional, collateral).Some?
    && EffectiveLeverage(notional, collateral).value <= leverage
    && collateral >= InitialMargin(notional, imrBps)
  }

  lemma DivCeilIsCeil(a: nat, d: nat)
    requires d > 0
    ensures DivCeil(a, d) == Ceil(a, d) >= 0
  {
    assert a * 1 == a;
    MulDivCeilIsCeil(a, 1, d);
  }

  /** The two measures behind the checks: the least leverage and the least margin that cover the notional. */
  lemma LeverageAndMarginCover(notional: nat, collateral: nat, imrBps: nat, k: nat)
    ensures EffectiveLeverage(notional, collateral).None? <==> collateral == 0
    ensures collateral > 0 ==> (EffectiveLeverage(notional, collateral).value <= k <==> notional <= k * collateral)
    ensures InitialMargin(notional, imrBps) <= k <==> notional * imrBps <= k * 10_000
  {
    if collateral > 0 {
      DivCeilIsCeil(notional, collateral);
      CeilGalois(notional, collateral, k);
    }
    MulMono(0, notional, imrBps);
    MulDivCeilIsCeil(notional, imrBps, BPS_PRECISION);
    CeilGalois(notional * imrBps, BPS_PRECISION, k);
  }

  /** The quoted margin is the least collateral that passes both checks. */
  lemma MinCollateralIsLeast(notional: nat, collateral: nat, leverage: nat, imrBps: nat)
    requires leverage > 0 && collateral > 0
    ensures Accepts(notional, collateral, leverage, imrBps) <==>
            MinCollateralFor(notional, leverage, imrBps) <= collateral
  {
    DivCeilIsCeil(notional, collateral);
    DivCeilIsCeil(notional, leverage);
    CeilGalois(notional, collateral, leverage);
    CeilGalois(notional, leverage, collateral);
    assert leverage * collateral == collateral * leverage;
  }

  /** Zero collateral is never accepted, and the margin quoted for a positive notional is positive. */
  lemma MarginIsPositive(notional: nat, leverage: nat, imrBps: nat)
    requires leverage > 0
    ensures !Accepts(notional, 0, leverage, imrBps)
    ensures MinCollateralFor(notional, leverage, imrBps) >= 0
    ensures notional > 0 ==> MinCollateralFor(notional, leverage, imrBps) > 0
  {
    DivCeilIsCeil(notional, leverage);
    CeilGalois(notional, leverage, 0);
  }

  /**
   The ticket takes the larger of the two sides' margins. It is the long side's, always, and it is
   the least collateral with which either direction opens.
   */
  lemma TicketMarginSuffices(
      market: SpreadParams, oraclePrice: int, confidenceBps: nat, sizeBase: nat,
      leverage: nat, imrBps: nat, collateral: nat)
    requires leverage > 0 && collateral > 0
    ensures var buy := QuoteOpen(market, oraclePrice, confidenceBps, sizeBase, Buy);
      var sell := QuoteOpen(market, oraclePrice, confidenceBps, sizeBase, Sell);
      buy.Some? && sell.Some? ==>
        var long, short := buy.value.notional, sell.value.notional;
        && 0 <= short <= long
        && MinCollateralFor(short, leverage, imrBps) <= MinCollateralFor(long, leverage, imrBps)
        && (MinCollateralFor(long, leverage, imrBps) <= collateral <==>
              Accepts(long, collateral, leverage, imrBps) && Accepts(short, collateral, leverage, imrBps))
  {
    var buy := QuoteOpen(market, oraclePrice, confidenceBps, sizeBase, Buy);
    var sell := QuoteOpen(market, oraclePrice, confidenceBps, sizeBase, Sell);
    if buy.Some? && sell.Some? {
      BuyNeverBelowSell(market, market, oraclePrice, confidenceBps, confidenceBps, sizeBase, sizeBase);
      QuoteIsAdverse(market, oraclePrice, confidenceBps, sizeBase, Sell);
      MulDivCeilMono(sizeBase, sizeBase, sell.value.execPrice, buy.value.execPrice, NOTIONAL_DIVISOR);
      LargerNotionalNeedsMore(sell.value.notional, buy.value.notional, leverage, imrBps);
      MinCollateralIsLeast(buy.value.notional, collateral, leverage, imrBps);
      MinCollateralIsLeast(sell.value.notional, collateral, leverage, imrBps);
    }
  }

  lemma LargerNotionalNeedsMore(m: nat, n: nat, leverage: nat, imrBps: nat)
    requires m <= n && leverage > 0
    ensures MinCollateralFor(m, leverage, imrBps) <= MinCollateralFor(n, leverage, imrBps)
  {
    MulDivCeilMono(m, n, imrBps, imrBps, BPS_PRECISION);
    DivCeilIsCeil(m, leverage);
    DivCeilIsCeil(n, leverage);
    CeilMono(m, n, leverage);
  }

  // --- sizing by notional --------------------------------------------------------------------------

  datatype SizingError = NotPositiveNotional | NotPositivePrice | TooSmall

  function NotionalToBase(notionalUsd: int, price: int): Result<int, SizingError> {
    if notionalUsd <= 0 then Err(NotPositiveNotional)
    else if price <= 0 then Err(NotPositivePrice)
    else
      var size := Quot(notionalUsd * QUOTE_PRECISION * NOTIONAL_DIVISOR, price);
      if size == 0 then Err(TooSmall) else Ok(size)
  }

  /** Each refusal, in its order. */
  lemma NotionalSizingRefuses(notionalUsd: int, price: int)
    ensures NotionalToBase(notionalUsd, price) == Err(NotPositiveNotional) <==> notionalUsd <= 0
    ensures NotionalToBase(notionalUsd, price) == Err(NotPositivePrice) <==> notionalUsd > 0 && price <= 0
    ensures NotionalToBase(notionalUsd, price) == Err(TooSmall) <==>
            notionalUsd > 0 && price > notionalUsd * 1_000_000 * 1_000_000_000_000
  {
    if notionalUsd > 0 && price > 0 {
      var n := notionalUsd * QUOTE_PRECISION * NOTIONAL_DIVISOR;
      QuotIsFloor(n, price);
      FloorGalois(n, price, 1);
    }
  }

  /**
   The largest size whose notional fits: `size` measures within the dollars asked for exactly up to
   the size computed, and the refusal `TooSmall` means that not even one base unit does.
   */
  lemma NotionalSizingIsAdjoint(notionalUsd: int, price: int, size: nat)
    requires notionalUsd > 0 && price > 0
    ensures NotionalToBase(notionalUsd, price).Ok? ==>
      (NotionalInQuote(size, price) <= notionalUsd * QUOTE_PRECISION <==>
       size <= NotionalToBase(notionalUsd, price).value)
    ensures NotionalToBase(notionalUsd, price).Err? ==>
      (NotionalInQuote(size, price) <= notionalUsd * QUOTE_PRECISION <==> size == 0)
  {
    var n := notionalUsd * QUOTE_PRECISION * NOTIONAL_DIVISOR;
    QuotIsFloor(n, price);
    FloorGalois(n, price, size);
    MulMono(0, size, price);
    MulDivCeilIsCeil(size, price, NOTIONAL_DIVISOR);
    CeilGalois(size * price, NOTIONAL_DIVISOR, notionalUsd * QUOTE_PRECISION);
  }
}
