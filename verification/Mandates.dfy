/**
 What a mandate permits (`ruleRefusal`, `marketIndices` and `marketBitmap` of `app/src/lib/nox.ts`).
 */
module Mandates {
  import opened BigInts
  import opened Results
  import opened Units
  import opened Desk

  // --- permitted markets as bits of one integer ----------------------------------------------------

  /** `(bitmap >> i) & 1`. */
  predicate HasBit(bitmap: nat, i: nat) {
    if i == 0 then bitmap % 2 == 1 else HasBit(bitmap / 2, i - 1)
  }

  /** `bitmap | (1 << i)`. */
  function SetBit(bitmap: nat, i: nat): nat {
    if i == 0 then bitmap - bitmap % 2 + 1
    else 2 * SetBit(bitmap / 2, i - 1) + bitmap % 2
  }

  function MarketBitmap(indices: seq<nat>): nat {
    if indices == [] then 0 else SetBit(MarketBitmap(indices[..|indices| - 1]), indices[|indices| - 1])
  }

  lemma {:induction false} SetBitSetsOne(bitmap: nat, i: nat, j: nat)
    ensures HasBit(SetBit(bitmap, i), j) <==> j == i || HasBit(bitmap, j)
  {
    if i > 0 {
      var half := SetBit(bitmap / 2, i - 1);
      assert SetBit(bitmap, i) / 2 == half && SetBit(bitmap, i) % 2 == bitmap % 2;
      if j > 0 {
        SetBitSetsOne(bitmap / 2, i - 1, j - 1);
      }
    } else if j > 0 {
      assert SetBit(bitmap, 0) / 2 == bitmap / 2;
    }
  }

  function Pow2(n: nat): (p: nat)
    ensures p > 0
  {
    if n == 0 then 1 else 2 * Pow2(n - 1)
  }

  /** Bit `i` is the shifted number's parity, and setting it adds its power of two unless it is set. */
  lemma {:induction false} BitsAreBinary(bitmap: nat, i: nat)
    ensures HasBit(bitmap, i) <==> bitmap / Pow2(i) % 2 == 1
    ensures SetBit(bitmap, i) == if HasBit(bitmap, i) then bitmap else bitmap + Pow2(i)
  {
    if i > 0 {
      BitsAreBinary(bitmap / 2, i - 1);
      HalfThenShift(bitmap, Pow2(i - 1));
    }
  }

  lemma HalfThenShift(n: nat, p: nat)
    requires p > 0
    ensures n / (2 * p) == n / 2 / p
  {
    var q := n / 2 / p;
    FloorBounds(n / 2, p);
    assert q * (2 * p) == 2 * (q * p);
    FloorIs(n, 2 * p, q);
  }

  lemma {:induction false} BitmapHolds(indices: seq<nat>, j: nat)
    ensures HasBit(MarketBitmap(indices), j) <==> j in indices
  {
    if indices == [] {
      ZeroHasNoBits(j);
    } else {
      var n := |indices| - 1;
      BitmapHolds(indices[..n], j);
      SetBitSetsOne(MarketBitmap(indices[..n]), indices[n], j);
      assert indices == indices[..n] + [indices[n]];
    }
  }

  lemma {:induction false} ZeroHasNoBits(j: nat)
    ensures !HasBit(0, j)
  {
    if j > 0 {
      ZeroHasNoBits(j - 1);
    }
  }

  /** Two bitmaps with the same bits are the same number. */
  lemma {:induction false} BitsDetermine(a: nat, b: nat)
    requires forall j: nat :: HasBit(a, j) <==> HasBit(b, j)
    ensures a == b
    decreases a + b
  {
    assert HasBit(a, 0) <==> HasBit(b, 0);
    if a + b > 0 {
      forall j: nat
        ensures HasBit(a / 2, j) <==> HasBit(b / 2, j)
      {
        assert HasBit(a, j + 1) <==> HasBit(b, j + 1);
      }
      BitsDetermine(a / 2, b / 2);
    }
  }

  ghost predicate Increasing(s: seq<nat>) {
    forall i, j :: 0 <= i < j < |s| ==> s[i] < s[j]
  }

  /** The permitted indices below 128, in increasing order. */
  method MarketIndices(bitmap: nat) returns (out: seq<nat>)
    ensures Increasing(out)
    ensures forall k: nat :: k in out <==> k < 128 && HasBit(bitmap, k)
  {
    out := [];
    for i := 0 to 128
      invariant Increasing(out)
      invariant forall k: nat :: k in out <==> k < i && HasBit(bitmap, k)
    {
      if HasBit(bitmap, i) {
        assert forall n :: 0 <= n < |out| ==> out[n] in out;
        out := out + [i];
      }
    }
  }

  ghost predicate FitsIn128(bitmap: nat) {
    forall k: nat :: HasBit(bitmap, k) ==> k < 128
  }

  /**
   Reading the markets out of a bitmap, with `MarketIndices`, and packing them again gives the bitmap
   back if and only if it has no bit past 127.
   */
  lemma IndicesRoundTrip(bitmap: nat, indices: seq<nat>)
    requires forall k: nat :: k in indices <==> k < 128 && HasBit(bitmap, k)
    ensures MarketBitmap(indices) == bitmap <==> FitsIn128(bitmap)
  {
    var packed := MarketBitmap(indices);
    forall j: nat
      ensures HasBit(packed, j) <==> j < 128 && HasBit(bitmap, j)
    {
      BitmapHolds(indices, j);
    }
    assert FitsIn128(packed);
    if FitsIn128(bitmap) {
      BitsDetermine(packed, bitmap);
    }
  }

  // --- the rules -----------------------------------------------------------------------------------

  datatype Mandate = Mandate(
    state: nat,
    allowedMarkets: nat,
    maxConcurrentPositions: nat,
    maxStopDistanceBps: nat,
    maxTradeNotional: nat,
    maxTotalNotional: nat,
    openNotional: nat,
    maxRiskPerTradeBps: nat,
    lastEquity: nat,
    peakEquity: nat)

  datatype Trade = Trade(
    marketIndex: nat,
    direction: Direction,
    price: int,
    sizeBase: nat,
    stopPrice: int,
    openPositions: nat,
    conversion: Conversion)

  datatype Breach =
    | MandateInactive
    | MarketNotPermitted
    | TooManyPositions
    | NoOraclePrice
    | NoStop
    | StopOnWrongSide
    | StopTooFar
    | TradeTooLarge
    | BookTooLarge
    | RiskTooHigh

  function RiskBasis(m: Mandate): nat {
    var basis := if m.lastEquity > 0 && m.lastEquity < m.peakEquity then m.lastEquity else m.peakEquity;
    if basis > 0 then basis else 1
  }

  function RuleRefusal(m: Mandate, t: Trade): Option<Breach> {
    if m.state != 0 then Some(MandateInactive)
    else if !HasBit(m.allowedMarkets, t.marketIndex) then Some(Breach.MarketNotPermitted)
    else if t.openPositions >= m.maxConcurrentPositions then Some(TooManyPositions)
    else if t.price <= 0 then Some(NoOraclePrice)
    else if t.stopPrice <= 0 then Some(NoStop)
    else if (if t.direction.Long? then t.stopPrice >= t.price else t.stopPrice <= t.price)
    then Some(Breach.StopOnWrongSide)
    else
      var distance := if t.stopPrice > t.price then t.stopPrice - t.price else t.price - t.stopPrice;
      if CeilDiv(distance * 10_000, t.price) > m.maxStopDistanceBps then Some(Breach.StopTooFar)
      else
        var notional := CostToUsd(CeilDiv(t.sizeBase * t.price, NOTIONAL_DIVISOR), t.conversion);
        if notional > m.maxTradeNotional then Some(TradeTooLarge)
        else if m.openNotional + notional > m.maxTotalNotional then Some(BookTooLarge)
        else
          var risk := CostToUsd(CeilDiv(t.sizeBase * distance, NOTIONAL_DIVISOR), t.conversion);
          if CeilDiv(risk * 10_000, RiskBasis(m)) > m.maxRiskPerTradeBps then Some(RiskTooHigh) else None
  }

  /** The mandate's rules without a quotient: the trade's measurements against the limits. */
  predicate WithinMandate(m: Mandate, t: Trade) {
    && m.state == 0 && HasBit(m.allowedMarkets, t.marketIndex) && t.openPositions < m.maxConcurrentPositions
    && StopOnLosingSide(t.direction, t.price, t.stopPrice)
    && Distance(t.price, t.stopPrice) * 10_000 <= m.maxStopDistanceBps * t.price
    && MeasuredNotional(t.sizeBase, t.price, t.conversion) <= m.maxTradeNotional
    && m.openNotional + MeasuredNotional(t.sizeBase, t.price, t.conversion) <= m.maxTotalNotional
    && RiskAtStop(t.sizeBase, t.price, t.stopPrice, t.conversion) * 10_000 <= m.maxRiskPerTradeBps * RiskBasis(m)
  }

  /** A trade is refused exactly when it breaks a rule, and its risk is the one the desk shows. */
  lemma PermittedIffWithinMandate(m: Mandate, t: Trade)
    ensures RuleRefusal(m, t) == None <==> WithinMandate(m, t)
  {
    if StopOnLosingSide(t.direction, t.price, t.stopPrice) {
      var distance := Distance(t.price, t.stopPrice);
      CeilDivIsCeil(distance * 10_000, t.price);
      CeilGalois(distance * 10_000, t.price, m.maxStopDistanceBps);
      MulMono(0, t.sizeBase, distance);
      var quote := CeilDiv(t.sizeBase * distance, NOTIONAL_DIVISOR);
      CeilDivIsCeil(t.sizeBase * distance, NOTIONAL_DIVISOR);
      var risk := CostToUsd(quote, t.conversion);
      CostIsNonNegative(quote, t.conversion);
      if t.sizeBase == 0 {
        assert 0 * distance == 0;
        ZeroCostsNothing(t.conversion);
      }
      CeilDivIsCeil(risk * 10_000, RiskBasis(m));
      CeilGalois(risk * 10_000, RiskBasis(m), m.maxRiskPerTradeBps);
    }
  }

  /**
   A ticket sized for `usd`, within both notional limits, is never refused for its notional, at any
   price and conversion; and one base unit more would measure above `usd`.
   */
  lemma SizedTicketFits(m: Mandate, t: Trade, usd: nat)
    requires t.sizeBase == SizeFor(usd, t.price, t.conversion)
    requires usd <= m.maxTradeNotional && m.openNotional + usd <= m.maxTotalNotional
    ensures RuleRefusal(m, t) != Some(TradeTooLarge) && RuleRefusal(m, t) != Some(BookTooLarge)
    ensures t.price > 0 && Convertible(t.conversion) ==>
      MeasuredNotional(t.sizeBase, t.price, t.conversion) <= usd
        < MeasuredNotional(t.sizeBase + 1, t.price, t.conversion)
  {
    if t.price > 0 {
      SizingIsAdjoint(t.sizeBase, usd, t.price, t.conversion);
      SizingIsAdjoint(t.sizeBase + 1, usd, t.price, t.conversion);
    }
  }

  // --- the program's own check ---------------------------------------------------------------------

  datatype ProgramError =
    | MandateNotActive
    | MarketNotPermitted
    | TooManyOpenPositions
    | StopLossRequired
    | StopOnWrongSide
    | StopTooFar
    | TradeExceedsMandate
    | TotalNotionalExceeded
    | RiskPerTradeExceeded
    | InvalidPrice

  /** `convert_cost_to_collateral`: a rate that is not positive is an error, not a zero. */
  function CostToCollateral(quote: int, c: Conversion): Result<int, ProgramError> {
    match c
    case NoConversion => Ok(quote)
    case QuotePerUsd(rate) =>
      if rate <= 0 then Err(InvalidPrice) else Ok(MulDivCeil(quote, PRICE_PRECISION, rate))
    case UsdPerQuote(rate) =>
      if rate <= 0 then Err(InvalidPrice) else Ok(MulDivCeil(quote, rate, PRICE_PRECISION))
  }

  function NotionalInCollateral(sizeBase: nat, price: int, c: Conversion): Result<int, ProgramError> {
    if price <= 0 then Err(InvalidPrice)
    else CostToCollateral(MulDivCeil(sizeBase, price, NOTIONAL_DIVISOR), c)
  }

  /** `check_rules`, in its order. */
  function CheckRules(m: Mandate, t: Trade): Result<(), ProgramError> {
    if m.state != 0 then Err(MandateNotActive)
    else if t.marketIndex >= 128 || !HasBit(m.allowedMarkets, t.marketIndex) then Err(ProgramError.MarketNotPermitted)
    else if t.openPositions >= m.maxConcurrentPositions then Err(TooManyOpenPositions)
    else if t.stopPrice <= 0 then Err(StopLossRequired)
    else if t.price <= 0 then Err(StopLossRequired)
    else if !(if t.direction.Long? then t.stopPrice < t.price else t.stopPrice > t.price)
    then Err(ProgramError.StopOnWrongSide)
    else
      var distance := Abs(t.price - t.stopPrice);
      if MulDivCeil(distance, 10_000, t.price) > m.maxStopDistanceBps then Err(ProgramError.StopTooFar)
      else
        var notional :- NotionalInCollateral(t.sizeBase, t.price, t.conversion);
        if notional > m.maxTradeNotional then Err(TradeExceedsMandate)
        else if m.openNotional + notional > m.maxTotalNotional then Err(TotalNotionalExceeded)
        else
          var risk :- NotionalInCollateral(t.sizeBase, distance, t.conversion);
          var lower := if m.lastEquity > 0
                       then (if m.peakEquity < m.lastEquity then m.peakEquity else m.lastEquity)
                       else m.peakEquity;
          if MulDivCeil(risk, 10_000, if lower > 1 then lower else 1) > m.maxRiskPerTradeBps
          then Err(RiskPerTradeExceeded)
          else Ok(())
  }

  /** The program's name for what the client says. */
  function Named(refusal: Option<Breach>): Result<(), ProgramError> {
    match refusal
    case None => Ok(())
    case Some(breach) =>
      Err(match breach
          case MandateInactive => MandateNotActive
          case MarketNotPermitted => ProgramError.MarketNotPermitted
          case TooManyPositions => TooManyOpenPositions
          case NoOraclePrice => StopLossRequired
          case NoStop => StopLossRequired
          case StopOnWrongSide => ProgramError.StopOnWrongSide
          case StopTooFar => ProgramError.StopTooFar
          case TradeTooLarge => TradeExceedsMandate
          case BookTooLarge => TotalNotionalExceeded
          case RiskTooHigh => RiskPerTradeExceeded)
  }

  /** The two ways of rounding a cost up agree. */
  lemma CeilingsAgree(a: int, b: int, d: int)
    requires a >= 0 && b >= 0 && d > 0
    ensures MulDivCeil(a, b, d) == CeilDiv(a * b, d) >= 0
  {
    MulMono(0, a, b);
    MulDivCeilIsCeil(a, b, d);
    CeilDivIsCeil(a * b, d);
  }

  lemma CollateralAgrees(sizeBase: nat, price: int, c: Conversion)
    requires price > 0
    ensures NotionalInCollateral(sizeBase, price, c)
      == if Convertible(c) then Ok(CostToUsd(CeilDiv(sizeBase * price, NOTIONAL_DIVISOR), c)) else Err(InvalidPrice)
    ensures CostToUsd(CeilDiv(sizeBase * price, NOTIONAL_DIVISOR), c) >= 0
  {
    CeilingsAgree(sizeBase, price, NOTIONAL_DIVISOR);
    var quote := CeilDiv(sizeBase * price, NOTIONAL_DIVISOR);
    CostIsNonNegative(quote, c);
    match c
    case NoConversion =>
    case QuotePerUsd(rate) => if rate > 0 { CeilingsAgree(quote, PRICE_PRECISION, rate); }
    case UsdPerQuote(rate) => if rate > 0 { CeilingsAgree(quote, rate, PRICE_PRECISION); }
  }

  /** Everything both check before they measure the trade in USDC. */
  predicate ComesToMeasuring(m: Mandate, t: Trade) {
    && m.state == 0 && HasBit(m.allowedMarkets, t.marketIndex) && t.openPositions < m.maxConcurrentPositions
    && StopOnLosingSide(t.direction, t.price, t.stopPrice)
    && Distance(t.price, t.stopPrice) * 10_000 <= m.maxStopDistanceBps * t.price
  }

  /**
   The client's check is the program's, refusal by refusal and to the unit, exactly when the
   conversion has a usable rate or the trade never comes to be measured. Measured without one, it is
   nothing to the client and an error to the program; the client's verdict is then right only about a
   book that is over its limit already.
   */
  lemma ClientMirrorsProgram(m: Mandate, t: Trade)
    requires FitsIn128(m.allowedMarkets)
    ensures CheckRules(m, t) == Named(RuleRefusal(m, t)) <==>
            Convertible(t.conversion) || !ComesToMeasuring(m, t)
    ensures (CheckRules(m, t).Ok? <==> RuleRefusal(m, t) == None) <==>
            Convertible(t.conversion) || !ComesToMeasuring(m, t) || m.openNotional > m.maxTotalNotional
  {
    if StopOnLosingSide(t.direction, t.price, t.stopPrice) {
      var distance := Distance(t.price, t.stopPrice);
      CeilingsAgree(distance, 10_000, t.price);
      CeilGalois(distance * 10_000, t.price, m.maxStopDistanceBps);
      CeilDivIsCeil(distance * 10_000, t.price);
      CollateralAgrees(t.sizeBase, t.price, t.conversion);
      CollateralAgrees(t.sizeBase, distance, t.conversion);
      var risk := CostToUsd(CeilDiv(t.sizeBase * distance, NOTIONAL_DIVISOR), t.conversion);
      CeilingsAgree(risk, 10_000, RiskBasis(m));
      if !Convertible(t.conversion) {
        assert risk == 0;
        CeilDivIsCeil(0, RiskBasis(m));
        CeilGalois(0, RiskBasis(m), 0);
      }
    }
  }

  /**
   What that means: at an unusable rate the client permits every trade that comes to be measured in
   a mandate within its book limit, however large, and the program permits none.
   */
  lemma UnmeasuredTradesArePermitted(m: Mandate, t: Trade)
    requires FitsIn128(m.allowedMarkets) && ComesToMeasuring(m, t)
    requires !Convertible(t.conversion) && m.openNotional <= m.maxTotalNotional
    ensures RuleRefusal(m, t) == None && CheckRules(m, t) == Err(InvalidPrice)
  {
    PermittedIffWithinMandate(m, t);
    MulMono(0, m.maxRiskPerTradeBps, RiskBasis(m));
    MulMono(0, t.sizeBase, t.price);
    var distance := Distance(t.price, t.stopPrice);
    CeilingsAgree(distance, 10_000, t.price);
    CeilDivIsCeil(distance * 10_000, t.price);
    CeilGalois(distance * 10_000, t.price, m.maxStopDistanceBps);
    CollateralAgrees(t.sizeBase, t.price, t.conversion);
  }

  /** Such a trade exists: a million units on a mandate that allows one dollar. */
  lemma PermittedWithoutARate()
    ensures exists m: Mandate, t: Trade ::
      && t.conversion == UsdPerQuote(0) && t.sizeBase == 1_000_000 * BASE_PRECISION
      && m.maxTotalNotional == QUOTE_PRECISION
      && FitsIn128(m.allowedMarkets) && RuleRefusal(m, t) == None && CheckRules(m, t) == Err(InvalidPrice)
  {
    var m := Mandate(0, MarketBitmap([0]), 1, 1_000, QUOTE_PRECISION, QUOTE_PRECISION, 0, 100, 0, QUOTE_PRECISION);
    var t := Trade(0, Long, 1_000, 1_000_000 * BASE_PRECISION, 990, 0, UsdPerQuote(0));
    forall j: nat
      ensures HasBit(m.allowedMarkets, j) <==> j == 0
    {
      BitmapHolds([0], j);
    }
    UnmeasuredTradesArePermitted(m, t);
  }
}
