/**
 The trader's desk (`app/src/lib/noxdesk.ts`): conversion, sizing, risk and profit.

 Costs are rounded up and profits towards minus infinity. The results below are about what those
 two choices make of each other: sizing inverts measuring exactly, and the risk measured when a
 ticket is judged is, to the unit, the loss booked if its stop is hit.
 */
module Desk {
  import opened BigInts
  import opened Results
  import opened Units

  // --- conversion -------------------------------------------------------------------------------

  datatype Conversion =
    | NoConversion
    | QuotePerUsd(rate: int)
    | UsdPerQuote(rate: int)

  /** A conversion with a usable rate. The source answers zero for the others. */
  predicate Convertible(c: Conversion) {
    c.NoConversion? || c.rate > 0
  }

  function CostToUsd(quote: int, c: Conversion): int {
    match c
    case NoConversion => quote
    case QuotePerUsd(rate) => if rate <= 0 then 0 else CeilDiv(quote * PRICE_PRECISION, rate)
    case UsdPerQuote(rate) => if rate <= 0 then 0 else CeilDiv(quote * rate, PRICE_PRECISION)
  }

  function PnlToUsd(quote: int, c: Conversion): int {
    match c
    case NoConversion => quote
    case QuotePerUsd(rate) => if rate <= 0 then 0 else FloorDiv(quote * PRICE_PRECISION, rate)
    case UsdPerQuote(rate) => if rate <= 0 then 0 else FloorDiv(quote * rate, PRICE_PRECISION)
  }

  function UsdToQuote(usd: int, c: Conversion): int {
    match c
    case NoConversion => usd
    case QuotePerUsd(rate) => if rate <= 0 then 0 else Quot(usd * rate, PRICE_PRECISION)
    case UsdPerQuote(rate) => if rate <= 0 then 0 else Quot(usd * PRICE_PRECISION, rate)
  }

  /** Converting a cost up and dollars down are adjoint. */
  lemma ConversionIsAdjoint(quote: nat, usd: nat, c: Conversion)
    requires Convertible(c)
    ensures CostToUsd(quote, c) <= usd <==> quote <= UsdToQuote(usd, c)
    ensures UsdToQuote(usd, c) >= 0 && CostToUsd(quote, c) >= 0
  {
    match c
    case NoConversion =>
    case QuotePerUsd(rate) =>
      CeilDivIsCeil(quote * PRICE_PRECISION, rate);
      CeilGalois(quote * PRICE_PRECISION, rate, usd);
      QuotIsFloor(usd * rate, PRICE_PRECISION);
      FloorGalois(usd * rate, PRICE_PRECISION, quote);
    case UsdPerQuote(rate) =>
      CeilDivIsCeil(quote * rate, PRICE_PRECISION);
      CeilGalois(quote * rate, PRICE_PRECISION, usd);
      QuotIsFloor(usd * PRICE_PRECISION, rate);
      FloorGalois(usd * PRICE_PRECISION, rate, quote);
  }

  lemma CostIsNonNegative(quote: nat, c: Conversion)
    ensures CostToUsd(quote, c) >= 0
  {
    if Convertible(c) {
      ConversionIsAdjoint(quote, 0, c);
    }
  }

  lemma ZeroCostsNothing(c: Conversion)
    ensures CostToUsd(0, c) == 0
  {
    CostIsNonNegative(0, c);
    if Convertible(c) {
      ConversionIsAdjoint(0, 0, c);
    }
  }

  /** The loss of a cost is the cost, whatever the conversion. */
  lemma LossConvertsAsCost(cost: int, c: Conversion)
    requires cost >= 0
    ensures PnlToUsd(-cost, c) == -CostToUsd(cost, c)
  {
    if !c.NoConversion? && c.rate > 0 {
      var (factor, d) := if c.QuotePerUsd? then (PRICE_PRECISION, c.rate) else (c.rate, PRICE_PRECISION);
      assert -cost * factor == -(cost * factor);
      MulMono(0, cost, factor);
      FloorDivIsFloor(-(cost * factor), d);
      FloorOfNegation(cost * factor, d);
      CeilDivIsCeil(cost * factor, d);
    }
  }

  lemma PnlToUsdMono(m: int, n: int, c: Conversion)
    requires m <= n
    ensures PnlToUsd(m, c) <= PnlToUsd(n, c)
  {
    if !c.NoConversion? && c.rate > 0 {
      var (factor, d) := if c.QuotePerUsd? then (PRICE_PRECISION, c.rate) else (c.rate, PRICE_PRECISION);
      MulMono(m, n, factor);
      FloorMono(m * factor, n * factor, d);
      FloorDivIsFloor(m * factor, d);
      FloorDivIsFloor(n * factor, d);
    }
  }

  /** A converted profit keeps the sign of a loss, and a usable rate never hides one. */
  lemma LossStaysLoss(quote: int, c: Conversion)
    ensures Convertible(c) ==> (PnlToUsd(quote, c) < 0 <==> quote < 0)
  {
    if !c.NoConversion? && c.rate > 0 {
      var (factor, d) := if c.QuotePerUsd? then (PRICE_PRECISION, c.rate) else (c.rate, PRICE_PRECISION);
      FloorDivIsFloor(quote * factor, d);
      FloorGalois(quote * factor, d, 0);
      if quote < 0 {
        MulMono(quote, -1, factor);
      } else {
        MulMono(0, quote, factor);
      }
    }
  }

  // --- sizing and measuring ----------------------------------------------------------------------

  function SizeFor(notionalUsd: int, price: int, c: Conversion): int {
    if price <= 0 then 0
    else Quot(UsdToQuote(notionalUsd, c) * NOTIONAL_DIVISOR, price)
  }

  /** A ticket's notional as the rules measure it: rounded up in quote units, then up in USDC. */
  function MeasuredNotional(sizeBase: int, price: int, c: Conversion): int {
    CostToUsd(CeilDiv(sizeBase * price, NOTIONAL_DIVISOR), c)
  }

  /**
   Sizing is the exact inverse of measuring: a size measures within `usd` if and only if it is at
   most the size the desk computes for `usd`. Without a usable rate both sides degenerate to zero,
   and every size measures as nothing.
   */
  lemma SizingIsAdjoint(sizeBase: nat, usd: nat, price: int, c: Conversion)
    requires price > 0
    ensures Convertible(c) ==> (MeasuredNotional(sizeBase, price, c) <= usd <==> sizeBase <= SizeFor(usd, price, c))
    ensures !Convertible(c) ==> MeasuredNotional(sizeBase, price, c) == 0 == SizeFor(usd, price, c)
    ensures SizeFor(usd, price, c) >= 0
  {
    if Convertible(c) {
      MulMono(0, sizeBase, price);
      var quote := CeilDiv(sizeBase * price, NOTIONAL_DIVISOR);
      CeilDivIsCeil(sizeBase * price, NOTIONAL_DIVISOR);
      ConversionIsAdjoint(quote, usd, c);
      var room := UsdToQuote(usd, c);
      CeilGalois(sizeBase * price, NOTIONAL_DIVISOR, room);
      QuotIsFloor(room * NOTIONAL_DIVISOR, price);
      FloorGalois(room * NOTIONAL_DIVISOR, price, sizeBase);
    } else {
      QuotIsFloor(0, price);
      FloorGalois(0, price, 1);
    }
  }

  /** Dollars convert down to the most quote units they are worth, and to none at an unusable rate. */
  lemma DollarsBuy(usd: nat, c: Conversion, k: nat)
    ensures c == NoConversion ==> UsdToQuote(usd, c) == usd
    ensures c.QuotePerUsd? && c.rate > 0 ==> (k <= UsdToQuote(usd, c) <==> k * 1_000_000_000 <= usd * c.rate)
    ensures c.UsdPerQuote? && c.rate > 0 ==> (k <= UsdToQuote(usd, c) <==> k * c.rate <= usd * 1_000_000_000)
    ensures !Convertible(c) ==> UsdToQuote(usd, c) == 0
  {
    match c
    case NoConversion =>
    case QuotePerUsd(rate) =>
      if rate > 0 {
        MulMono(0, usd, rate);
        QuotIsFloor(usd * rate, PRICE_PRECISION);
        FloorGalois(usd * rate, PRICE_PRECISION, k);
      }
    case UsdPerQuote(rate) =>
      if rate > 0 {
        QuotIsFloor(usd * PRICE_PRECISION, rate);
        FloorGalois(usd * PRICE_PRECISION, rate, k);
      }
  }

  // --- the stop ----------------------------------------------------------------------------------

  /** The source also refuses a fractional `bps`, with the same zero. */
  function StopFromBps(direction: Direction, price: int, bps: int): int {
    if price <= 0 || bps <= 0 || bps >= BPS_PRECISION then 0
    else if direction.Long? then Quot(price * (10_000 - bps), BPS_PRECISION)
    else CeilDiv(price * (10_000 + bps), BPS_PRECISION)
  }

  function Distance(price: int, stop: int): int {
    if price > stop then price - stop else stop - price
  }

  function BpsFromStop(price: int, stop: int): int {
    if price <= 0 || stop <= 0 then 0
    else CeilDiv(Distance(price, stop) * BPS_PRECISION, price)
  }

  predicate StopOnLosingSide(direction: Direction, price: int, stop: int) {
    if price <= 0 || stop <= 0 then false
    else if direction.Long? then stop < price
    else stop > price
  }

  function RiskAtStop(sizeBase: int, price: int, stop: int, c: Conversion): int {
    if sizeBase <= 0 || price <= 0 || stop <= 0 then 0
    else CostToUsd(CeilDiv(sizeBase * Distance(price, stop), NOTIONAL_DIVISOR), c)
  }

  function RiskBps(risk: int, balance: int): Option<int> {
    if balance <= 0 then None else Some(CeilDiv(risk * BPS_PRECISION, balance))
  }

  /** On both sides the stop sits the distance, rounded up, on the losing side. */
  lemma StopDistance(direction: Direction, price: int, bps: int)
    requires price > 0 && 0 < bps < BPS_PRECISION
    ensures var d := Ceil(price * bps, BPS_PRECISION);
      && d > 0
      && StopFromBps(direction, price, bps) == if direction.Long? then price - d else price + d
  {
    var n := price * bps;
    MulMono(1, bps, price);
    CeilGalois(n, BPS_PRECISION, 0);
    assert price * (10_000 - bps) == price * BPS_PRECISION - n;
    assert price * (10_000 + bps) == price * BPS_PRECISION + n;
    if direction.Long? {
      MulMono(bps, BPS_PRECISION, price);
      QuotIsFloor(price * BPS_PRECISION - n, BPS_PRECISION);
    } else {
      CeilDivIsCeil(price * BPS_PRECISION + n, BPS_PRECISION);
    }
  }

  /** A distance measures as the least whole basis points that cover it, and as none without two prices. */
  lemma BpsCoverTheDistance(price: int, stop: int, k: nat)
    ensures price > 0 && stop > 0 ==> (BpsFromStop(price, stop) <= k <==> Distance(price, stop) * 10_000 <= k * price)
    ensures price <= 0 || stop <= 0 ==> BpsFromStop(price, stop) == 0
    ensures Distance(price, stop) == Abs(price - stop)
  {
    if price > 0 && stop > 0 {
      CeilDivIsCeil(Distance(price, stop) * BPS_PRECISION, price);
      CeilGalois(Distance(price, stop) * BPS_PRECISION, price, k);
    }
  }

  /** Outside its range a distance gives no stop. */
  lemma NoStopOutOfRange(direction: Direction, price: int, bps: int)
    ensures price <= 0 || bps <= 0 || bps >= 10_000 ==> StopFromBps(direction, price, bps) == 0
  {
  }

  /** The risk at a stop, on either side, is the least cost that covers the distance for the whole size. */
  lemma RiskCoversTheDistance(sizeBase: int, price: int, stop: int, c: Conversion, usd: nat)
    ensures sizeBase > 0 && price > 0 && stop > 0 && Convertible(c) ==>
      (RiskAtStop(sizeBase, price, stop, c) <= usd <==>
       sizeBase * Abs(price - stop) <= UsdToQuote(usd, c) * 1_000_000_000_000)
    ensures sizeBase <= 0 || price <= 0 || stop <= 0 || !Convertible(c) ==> RiskAtStop(sizeBase, price, stop, c) == 0
  {
    if sizeBase > 0 && price > 0 && stop > 0 && Convertible(c) {
      var n := sizeBase * Distance(price, stop);
      MulMono(0, sizeBase, Distance(price, stop));
      CeilDivIsCeil(n, NOTIONAL_DIVISOR);
      ConversionIsAdjoint(CeilDiv(n, NOTIONAL_DIVISOR), usd, c);
      CeilGalois(n, NOTIONAL_DIVISOR, UsdToQuote(usd, c));
    }
  }

  /**
   Asking for `bps` and measuring the stop that results gives `bps` back exactly when the distance
   is a whole number of price units, and otherwise more; from a price of 10,000 units on, at most
   one more.
   */
  lemma MeasuredStop(direction: Direction, price: int, bps: int)
    requires price > 0 && 0 < bps < BPS_PRECISION
    requires StopFromBps(direction, price, bps) > 0
    ensures var back := BpsFromStop(price, StopFromBps(direction, price, bps));
      && bps <= back
      && (back == bps <==> price * bps % BPS_PRECISION == 0)
      && (price >= BPS_PRECISION ==> back <= bps + 1)
  {
    StopDistance(direction, price, bps);
    var d := Ceil(price * bps, BPS_PRECISION);
    var back := BpsFromStop(price, StopFromBps(direction, price, bps));
    CeilDivIsCeil(d * BPS_PRECISION, price);
    CeilGalois(d * BPS_PRECISION, price, bps - 1);
    CeilGalois(d * BPS_PRECISION, price, bps);
    CeilGalois(d * BPS_PRECISION, price, bps + 1);
    CeilBounds(price * bps, BPS_PRECISION);
    assert (bps - 1) * price == price * bps - price;
    assert (bps + 1) * price == price * bps + price;
  }

  /** From that price on the stop is positive, so the measurement above applies. */
  lemma StopIsPositive(direction: Direction, price: int, bps: int)
    requires price >= BPS_PRECISION && 0 < bps < BPS_PRECISION
    ensures StopFromBps(direction, price, bps) > 0
  {
    StopDistance(direction, price, bps);
    MulMono(bps, BPS_PRECISION - 1, price);
    CeilGalois(price * bps, BPS_PRECISION, price - 1);
  }

  /**
   Switching a typed stop to a distance and back never moves it towards the price, and leaves it
   where it was if and only if it sits a whole number of basis points away, short of the price itself.
   */
  lemma StopThroughBps(direction: Direction, price: int, stop: int)
    requires StopOnLosingSide(direction, price, stop)
    ensures var bps := BpsFromStop(price, stop);
      var back := StopFromBps(direction, price, bps);
      && (bps < BPS_PRECISION ==> if direction.Long? then back <= stop else stop <= back)
      && (back == stop <==>
            Distance(price, stop) < price && Distance(price, stop) * BPS_PRECISION % price == 0)
  {
    var d := Distance(price, stop);
    var bps := BpsFromStop(price, stop);
    CeilDivIsCeil(d * BPS_PRECISION, price);
    CeilBounds(d * BPS_PRECISION, price);
    CeilGalois(d * BPS_PRECISION, price, 0);
    if d * BPS_PRECISION % price == 0 {
      var k := d * BPS_PRECISION / price;
      assert d * BPS_PRECISION == k * price;
      CeilGalois(d * BPS_PRECISION, price, k);
      CeilGalois(d * BPS_PRECISION, price, k - 1);
      assert (k - 1) * price == k * price - price;
      assert bps == k;
    }
    CeilGalois(d * BPS_PRECISION, price, BPS_PRECISION - 1);
    if bps < BPS_PRECISION {
      StopDistance(direction, price, bps);
      CeilGalois(price * bps, BPS_PRECISION, d);
      CeilGalois(price * bps, BPS_PRECISION, d - 1);
      if price * bps == d * BPS_PRECISION {
        WholeQuotient(d * BPS_PRECISION, price, bps);
      }
    } else if d < price && d * BPS_PRECISION % price == 0 {
      MulMono(BPS_PRECISION, bps, price);
      assert false;
    }
  }

  lemma WholeQuotient(n: int, d: int, k: int)
    requires d > 0 && n == d * k
    ensures n % d == 0
  {
    var q := n / d;
    assert n == d * q + n % d;
    if k > q {
      MulMono(q + 1, k, d);
    } else if k < q {
      MulMono(k + 1, q, d);
    }
  }

  // --- profit ------------------------------------------------------------------------------------

  function Move(direction: Direction, entryPrice: int, price: int): int {
    if direction.Long? then price - entryPrice else entryPrice - price
  }

  function EstimatePnl(direction: Direction, sizeBase: int, entryPrice: int, price: int, c: Conversion): int {
    if sizeBase <= 0 || entryPrice <= 0 || price <= 0 then 0
    else PnlToUsd(FloorDiv(sizeBase * Move(direction, entryPrice, price), NOTIONAL_DIVISOR), c)
  }

  lemma FlooredLossIsTheCost(n: int)
    requires n >= 0
    ensures FloorDiv(-n, NOTIONAL_DIVISOR) == -CeilDiv(n, NOTIONAL_DIVISOR) <= 0
  {
    FloorDivIsFloor(-n, NOTIONAL_DIVISOR);
    FloorOfNegation(n, NOTIONAL_DIVISOR);
    CeilDivIsCeil(n, NOTIONAL_DIVISOR);
  }

  lemma MoveToStop(direction: Direction, sizeBase: nat, entryPrice: int, stop: int)
    requires StopOnLosingSide(direction, entryPrice, stop)
    ensures sizeBase * Distance(entryPrice, stop) >= 0
    ensures sizeBase * Move(direction, entryPrice, stop) == -(sizeBase * Distance(entryPrice, stop))
  {
    var distance := Distance(entryPrice, stop);
    MulMono(0, sizeBase, distance);
    assert Move(direction, entryPrice, stop) == -distance;
  }

  /** The risk measured at a stop is, to the unit, the loss booked there, under any conversion. */
  lemma RiskIsTheBookedLoss(direction: Direction, sizeBase: int, entryPrice: int, stop: int, c: Conversion)
    requires StopOnLosingSide(direction, entryPrice, stop)
    ensures EstimatePnl(direction, sizeBase, entryPrice, stop, c) == -RiskAtStop(sizeBase, entryPrice, stop, c)
  {
    if sizeBase > 0 {
      MoveToStop(direction, sizeBase, entryPrice, stop);
      var n := sizeBase * Distance(entryPrice, stop);
      FlooredLossIsTheCost(n);
      LossConvertsAsCost(CeilDiv(n, NOTIONAL_DIVISOR), c);
    }
  }

  /** `better` is at least as good a price as `worse` for a position held in `direction`. */
  predicate NoWorse(direction: Direction, worse: int, better: int) {
    if direction.Long? then worse <= better else better <= worse
  }

  lemma PnlFollowsPrice(direction: Direction, sizeBase: int, entryPrice: int, worse: int, better: int, c: Conversion)
    requires worse > 0 && better > 0 && NoWorse(direction, worse, better)
    ensures EstimatePnl(direction, sizeBase, entryPrice, worse, c)
         <= EstimatePnl(direction, sizeBase, entryPrice, better, c)
  {
    if sizeBase > 0 && entryPrice > 0 {
      var m, n := sizeBase * Move(direction, entryPrice, worse), sizeBase * Move(direction, entryPrice, better);
      MulMono(Move(direction, entryPrice, worse), Move(direction, entryPrice, better), sizeBase);
      FloorMono(m, n, NOTIONAL_DIVISOR);
      FloorDivIsFloor(m, NOTIONAL_DIVISOR);
      FloorDivIsFloor(n, NOTIONAL_DIVISOR);
      PnlToUsdMono(FloorDiv(m, NOTIONAL_DIVISOR), FloorDiv(n, NOTIONAL_DIVISOR), c);
    }
  }

  /** So many dollars, as quote units rounded up: what a result must reach to be worth them. */
  function QuoteFor(usd: int, c: Conversion): int
    requires Convertible(c)
  {
    match c
    case NoConversion => usd
    case QuotePerUsd(rate) => Ceil(usd * rate, PRICE_PRECISION)
    case UsdPerQuote(rate) => Ceil(usd * PRICE_PRECISION, rate)
  }

  /** The result shown is the most dollars, gained or lost, that the move of the whole size covers. */
  lemma PnlIsTheMost(direction: Direction, sizeBase: int, entryPrice: int, price: int, c: Conversion, usd: int)
    requires sizeBase > 0 && entryPrice > 0 && price > 0 && Convertible(c)
    ensures usd <= EstimatePnl(direction, sizeBase, entryPrice, price, c) <==>
            QuoteFor(usd, c) * NOTIONAL_DIVISOR <= sizeBase * Move(direction, entryPrice, price)
  {
    var n := sizeBase * Move(direction, entryPrice, price);
    FloorDivIsFloor(n, NOTIONAL_DIVISOR);
    var quote := Floor(n, NOTIONAL_DIVISOR);
    FloorGalois(n, NOTIONAL_DIVISOR, QuoteFor(usd, c));
    match c
    case NoConversion =>
    case QuotePerUsd(rate) =>
      FloorDivIsFloor(quote * PRICE_PRECISION, rate);
      FloorGalois(quote * PRICE_PRECISION, rate, usd);
      CeilGalois(usd * rate, PRICE_PRECISION, quote);
    case UsdPerQuote(rate) =>
      FloorDivIsFloor(quote * rate, PRICE_PRECISION);
      FloorGalois(quote * rate, PRICE_PRECISION, usd);
      CeilGalois(usd * PRICE_PRECISION, rate, quote);
  }

  /** Without a size and two prices there is no result, and without a price no size. */
  lemma NothingToShow(direction: Direction, sizeBase: int, entryPrice: int, price: int, usd: int, c: Conversion)
    ensures sizeBase <= 0 || entryPrice <= 0 || price <= 0 ==>
      EstimatePnl(direction, sizeBase, entryPrice, price, c) == 0
    ensures price <= 0 ==> SizeFor(usd, price, c) == 0
  {
  }

  /** A position loses exactly when the price moved against it, however small the move. */
  lemma LosesIffAgainst(direction: Direction, sizeBase: int, entryPrice: int, price: int, c: Conversion)
    requires sizeBase > 0 && entryPrice > 0 && price > 0
    ensures Convertible(c) ==>
      (EstimatePnl(direction, sizeBase, entryPrice, price, c) < 0 <==> Move(direction, entryPrice, price) < 0)
    ensures !Convertible(c) ==> EstimatePnl(direction, sizeBase, entryPrice, price, c) == 0
  {
    var move := Move(direction, entryPrice, price);
    var n := sizeBase * move;
    if move < 0 {
      MulMono(move, -1, sizeBase);
    } else {
      MulMono(0, move, sizeBase);
    }
    FloorDivIsFloor(n, NOTIONAL_DIVISOR);
    FloorGalois(n, NOTIONAL_DIVISOR, 0);
    LossStaysLoss(FloorDiv(n, NOTIONAL_DIVISOR), c);
  }

  lemma PnlAtEntryIsZero(direction: Direction, sizeBase: int, entryPrice: int, c: Conversion)
    ensures EstimatePnl(direction, sizeBase, entryPrice, entryPrice, c) == 0
  {
    assert sizeBase * 0 == 0;
    LossConvertsAsCost(0, c);
    ZeroCostsNothing(c);
  }
}
