/**
 The liquidity pool's share arithmetic (`clients/js/src/lp.ts`), and the pool it prices.

 The client file is pure. The state it previews changes in `add_liquidity` and `remove_liquidity`
 of `programs/solfx-core/src/instructions/lp.rs`, modelled here as `Apply` over a pool value, so
 that the file's promise (no deposit and no redemption moves value towards the party making it)
 can be stated over whole runs.
 */
module LpPool {
  import opened BigInts
  import opened Results
  import opened Units

  const U64_MAX: nat := 18_446_744_073_709_551_615
  const U16_MAX: nat := 65_535

  datatype Refusal =
    | DoesNotFitU64
    | SharesExceedSupply
    | ZeroAmount
    | ZeroShares
    | FeesExceedGross
    | InsufficientShares

  datatype Pool = Pool(
    aum: nat,
    supply: nat,
    exitFeeBps: nat,
    performanceFeeBps: nat,
    highWaterMark: nat)

  datatype Withdrawal = Withdrawal(
    gross: nat,
    performanceFee: nat,
    exitFee: nat,
    payout: int,
    drainsThePool: bool)

  // --- the client's functions --------------------------------------------------------------------

  function ToU64(v: int): Result<nat, Refusal> {
    if v < 0 || v > U64_MAX then Err(DoesNotFitU64) else Ok(v)
  }

  function NavPerShare(aum: nat, supply: nat): Result<nat, Refusal> {
    if supply == 0 then Ok(QUOTE_PRECISION)
    else ToU64(MulDivFloor(aum, QUOTE_PRECISION, supply))
  }

  function SharesForDeposit(amount: nat, aum: nat, supply: nat): Result<nat, Refusal> {
    if amount == 0 then Ok(0)
    else if supply == 0 || aum == 0 then Ok(amount)
    else ToU64(MulDivFloor(amount, supply, aum))
  }

  function UsdcForShares(shares: nat, aum: nat, supply: nat): Result<nat, Refusal> {
    if shares == 0 || supply == 0 then Ok(0)
    else if shares > supply then Err(SharesExceedSupply)
    else ToU64(MulDivFloor(shares, aum, supply))
  }

  function ExitFee(gross: nat, feeBps: nat): Result<nat, Refusal> {
    if gross == 0 || feeBps == 0 then Ok(0)
    else ToU64(MulDivCeil(gross, feeBps, BPS_PRECISION))
  }

  function PerformanceFee(shares: nat, nav: nat, highWaterMark: nat, feeBps: nat): Result<nat, Refusal> {
    if shares == 0 || feeBps == 0 || nav <= highWaterMark then Ok(0)
    else
      var gain := MulDivFloor(shares, nav - highWaterMark, QUOTE_PRECISION);
      ToU64(MulDivCeil(gain, feeBps, BPS_PRECISION))
  }

  function PreviewWithdrawal(shares: nat, pool: Pool): Result<Withdrawal, Refusal> {
    var gross :- UsdcForShares(shares, pool.aum, pool.supply);
    var navBefore :- NavPerShare(pool.aum, pool.supply);
    var perf :- PerformanceFee(shares, navBefore, pool.highWaterMark, pool.performanceFeeBps);
    var drains := shares == pool.supply && shares > 0;
    var exit :- if drains then Ok(0) else ExitFee(gross, pool.exitFeeBps);
    Ok(Withdrawal(gross, perf, exit, gross - perf - exit, drains))
  }

  // --- the pool's own steps ----------------------------------------------------------------------

  datatype Step =
    | Deposit(amount: nat)
    | Redeem(shares: nat)
    | PoolSettlement(delta: int)

  /** What a deposit mints: the preview, refused where the program refuses. */
  function Minted(amount: nat, pool: Pool): Result<nat, Refusal> {
    if amount == 0 then Err(ZeroAmount)
    else
      var shares :- SharesForDeposit(amount, pool.aum, pool.supply);
      if shares == 0 then Err(ZeroShares) else Ok(shares)
  }

  /** What a redemption pays: the preview, refused where the program's checked subtraction fails. */
  function Settled(shares: nat, pool: Pool): Result<Withdrawal, Refusal> {
    if shares == 0 then Err(ZeroAmount)
    else if shares > pool.supply then Err(InsufficientShares)
    else
      var w :- PreviewWithdrawal(shares, pool);
      if w.payout < 0 then Err(FeesExceedGross) else Ok(w)
  }

  /**
   One step of the pool. The performance fee leaves with the payout, the exit fee stays; the high
   water mark is raised after a redemption. A trade, or a liquidation covered by insurance, settles
   against the pool for `delta`, what the pool gains; nothing looks at the shares when it does.
   */
  function Apply(pool: Pool, step: Step): Result<Pool, Refusal> {
    match step
    case Deposit(amount) =>
      var shares :- Minted(amount, pool);
      var aum :- ToU64(pool.aum + amount);
      var supply :- ToU64(pool.supply + shares);
      Ok(pool.(aum := aum, supply := supply))
    case Redeem(shares) =>
      var w :- Settled(shares, pool);
      var aum :- ToU64(pool.aum - w.payout - w.performanceFee);
      var supply :- ToU64(pool.supply - shares);
      var navAfter :- NavPerShare(aum, supply);
      var mark := if navAfter > pool.highWaterMark then navAfter else pool.highWaterMark;
      Ok(pool.(aum := aum, supply := supply, highWaterMark := mark))
    case PoolSettlement(delta) =>
      var aum :- ToU64(pool.aum + delta);
      Ok(pool.(aum := aum))
  }

  /** The states a run of accepted steps passes through, the start included. */
  ghost predicate IsRun(states: seq<Pool>, steps: seq<Step>) {
    && |states| == |steps| + 1
    && forall i :: 0 <= i < |steps| ==> Apply(states[i], steps[i]) == Ok(states[i + 1])
  }

  /** The pool `initialize_protocol` creates. */
  predicate IsEmptyPool(pool: Pool) {
    pool.aum == 0 && pool.supply == 0 && pool.highWaterMark == QUOTE_PRECISION
  }

  // --- what the roundings mean ---------------------------------------------------------------------

  /**
   Shares minted and USDC returned are the most that do not exceed the depositor's and the redeemer's
   proportion, and NAV per share the most that the AUM covers.
   */
  lemma ProportionsAreTheMost(amount: nat, aum: nat, supply: nat, k: nat)
    requires aum > 0 && supply > 0
    ensures SharesForDeposit(amount, aum, supply).Ok? ==>
      (k <= SharesForDeposit(amount, aum, supply).value <==> k * aum <= amount * supply)
    ensures UsdcForShares(amount, aum, supply).Ok? ==>
      (k <= UsdcForShares(amount, aum, supply).value <==> k * supply <= amount * aum)
    ensures NavPerShare(aum, supply).Ok? ==>
      (k <= NavPerShare(aum, supply).value <==> k * supply <= aum * QUOTE_PRECISION)
  {
    MulMono(0, amount, supply);
    MulMono(0, amount, aum);
    MulMono(0, k, aum);
    MulMono(0, k, supply);
    QuotIsFloor(amount * supply, aum);
    FloorGalois(amount * supply, aum, k);
    QuotIsFloor(amount * aum, supply);
    FloorGalois(amount * aum, supply, k);
    QuotIsFloor(aum * QUOTE_PRECISION, supply);
    FloorGalois(aum * QUOTE_PRECISION, supply, k);
    if amount == 0 && k > 0 {
      MulMono(1, k, aum);
      MulMono(1, k, supply);
    }
  }

  /** Each fee is the least that covers its rate: of the gross value, and of the gain above the mark. */
  lemma FeesAreTheLeast(gross: nat, shares: nat, nav: nat, mark: nat, feeBps: nat, k: nat)
    ensures ExitFee(gross, feeBps).Ok? ==>
      (ExitFee(gross, feeBps).value <= k <==> gross * feeBps <= k * BPS_PRECISION)
    ensures PerformanceFee(shares, nav, mark, feeBps).Ok? ==>
      var gain := if nav > mark then Floor(shares * (nav - mark), QUOTE_PRECISION) else 0;
      (PerformanceFee(shares, nav, mark, feeBps).value <= k <==> gain * feeBps <= k * BPS_PRECISION)
  {
    MulMono(0, gross, feeBps);
    MulDivCeilIsCeil(gross, feeBps, BPS_PRECISION);
    CeilGalois(gross * feeBps, BPS_PRECISION, k);
    if shares > 0 && nav > mark {
      MulMono(0, shares, nav - mark);
      QuotIsFloor(shares * (nav - mark), QUOTE_PRECISION);
      var gain := Floor(shares * (nav - mark), QUOTE_PRECISION);
      MulMono(0, gain, feeBps);
      MulDivCeilIsCeil(gain, feeBps, BPS_PRECISION);
      CeilGalois(gain * feeBps, BPS_PRECISION, k);
    }
  }

  // --- one redemption ------------------------------------------------------------------------------

  /**
   The three nested roundings of the performance fee: floored NAV per share, floored gain, against
   a mark of at least par. Whatever the pool, the gain taxed leaves at least one unit of the gross
   untaxed for every share redeemed.
   */
  lemma GainLeavesTheShares(shares: nat, pool: Pool, nav: nat, gross: nat)
    requires 0 < shares <= pool.supply && pool.highWaterMark >= QUOTE_PRECISION
    requires NavPerShare(pool.aum, pool.supply) == Ok(nav) && nav > pool.highWaterMark
    requires UsdcForShares(shares, pool.aum, pool.supply) == Ok(gross)
    ensures 0 <= MulDivFloor(shares, nav - pool.highWaterMark, QUOTE_PRECISION) <= gross - shares
  {
    var S, A, Q := pool.supply, pool.aum, QUOTE_PRECISION;
    var gain := MulDivFloor(shares, nav - pool.highWaterMark, Q);
    MulMono(0, shares, nav - pool.highWaterMark);
    QuotIsFloor(shares * (nav - pool.highWaterMark), Q);
    FloorBounds(shares * (nav - pool.highWaterMark), Q);
    MulMono(nav - pool.highWaterMark, nav - Q, shares);
    MulMono(0, A, Q);
    QuotIsFloor(A * Q, S);
    FloorBounds(A * Q, S);
    MulMono(0, shares, A);
    QuotIsFloor(shares * A, S);
    GainCore(shares, A, S, nav, gain);
    FloorGalois(shares * A, S, gain + shares);
  }

  lemma GainCore(shares: nat, aum: nat, supply: nat, nav: nat, gain: int)
    requires gain * QUOTE_PRECISION <= shares * (nav - QUOTE_PRECISION) && nav * supply <= aum * QUOTE_PRECISION
    ensures (gain + shares) * supply <= shares * aum
  {
    var Q := QUOTE_PRECISION;
    assert shares * (nav - Q) == shares * nav - shares * Q;
    calc <= {
      ((gain + shares) * supply) * Q;
      (gain * Q + shares * Q) * supply;
      { MulMono(gain * Q + shares * Q, shares * nav, supply); }
      (shares * nav) * supply;
      shares * (nav * supply);
      { MulMono(nav * supply, aum * Q, shares); }
      shares * (aum * Q);
      (shares * aum) * Q;
    }
    MulCancel((gain + shares) * supply, shares * aum, Q);
  }

  /**
   The pairs of rates at which the two fees, both rounded up, never exceed the gross value. With `k`
   the whole number of times the exit rate goes into one, the performance rate is at most `1 - 1/k`.
   */
  predicate SafeRates(exitFeeBps: nat, performanceFeeBps: nat) {
    if exitFeeBps == 0 then performanceFeeBps <= BPS_PRECISION
    else
      var k := BPS_PRECISION / exitFeeBps;
      performanceFeeBps * k <= BPS_PRECISION * (k - 1)
  }

  /** At such rates the fees on any gross value and any smaller gain leave something or nothing. */
  lemma SafeFees(gross: nat, gain: nat, exitFeeBps: nat, performanceFeeBps: nat)
    requires SafeRates(exitFeeBps, performanceFeeBps) && gain < gross
    ensures 0 <= Ceil(gain * performanceFeeBps, BPS_PRECISION)
    ensures 0 <= Ceil(gross * exitFeeBps, BPS_PRECISION)
         <= gross - Ceil(gain * performanceFeeBps, BPS_PRECISION)
  {
    var e, p, B := exitFeeBps, performanceFeeBps, BPS_PRECISION;
    MulMono(0, gross, e);
    MulMono(0, gain, p);
    CeilGalois(gross * e, B, -1);
    CeilGalois(gain * p, B, -1);
    var m := Ceil(gross * e, B);
    assert gain * p <= (gross - m) * B by {
      if e == 0 {
        assert m == 0;
        MulMono(p, B, gain);
        MulMono(gain, gross, B);
      } else {
        MulMono(1, gross, e);
        CeilGalois(gross * e, B, 0);
        CeilBounds(gross * e, B);
        FloorBounds(B, e);
        SafeFeesCore(gross, gain, e, p, B / e, m);
      }
    }
    CeilGalois(gain * p, B, gross - m);
  }

  lemma SafeFeesCore(gross: nat, gain: nat, e: nat, p: nat, k: int, m: int)
    requires e > 0 && k * e <= BPS_PRECISION < k * e + e && p * k <= BPS_PRECISION * (k - 1)
    requires gain < gross && 1 <= m && (m - 1) * BPS_PRECISION < gross * e
    ensures gain * p <= (gross - m) * BPS_PRECISION
  {
    PositiveTimes(k, e, p);
    UnitsOfExitFee(gross, e, k, m);
    PerformanceFeeTimes(gross, gain, p, k);
    LastUnits(gross, k, m);
    MulMono((gross - 1) * (k - 1), (gross - m) * k, BPS_PRECISION);
    assert ((gross - m) * k) * BPS_PRECISION == ((gross - m) * BPS_PRECISION) * k;
    MulCancel(gain * p, (gross - m) * BPS_PRECISION, k);
  }

  lemma PerformanceFeeTimes(gross: nat, gain: nat, p: nat, k: int)
    requires k >= 1 && gain < gross && p * k <= BPS_PRECISION * (k - 1)
    ensures (gain * p) * k <= ((gross - 1) * (k - 1)) * BPS_PRECISION
  {
    var whole := BPS_PRECISION * (k - 1);
    calc <= {
      (gain * p) * k;
      { MulAssociates(gain, p, k); }
      gain * (p * k);
      { MulMono(p * k, whole, gain); }
      gain * whole;
      { MulMono(gain, gross - 1, whole); }
      (gross - 1) * whole;
      { MulAssociates(gross - 1, k - 1, BPS_PRECISION); }
      ((gross - 1) * (k - 1)) * BPS_PRECISION;
    }
  }

  lemma PositiveTimes(k: int, e: nat, p: nat)
    requires e > 0 && BPS_PRECISION < k * e + e && p * k <= BPS_PRECISION * (k - 1)
    ensures k >= 1
  {
    if k < 0 {
      MulMono(k, -1, e);
    }
  }

  /** An exit fee of `m` units takes more than `k` units of gross value for each but the first. */
  lemma UnitsOfExitFee(gross: nat, e: nat, k: int, m: int)
    requires e > 0 && k * e <= BPS_PRECISION && 1 <= m && (m - 1) * BPS_PRECISION < gross * e
    ensures (m - 1) * k < gross
  {
    if (m - 1) * k >= gross {
      calc <= {
        gross * e;
        { MulMono(gross, (m - 1) * k, e); }
        ((m - 1) * k) * e;
        (k * e) * (m - 1);
        { MulMono(k * e, BPS_PRECISION, m - 1); }
        BPS_PRECISION * (m - 1);
      }
    }
  }

  lemma LastUnits(gross: nat, k: int, m: int)
    requires (m - 1) * k < gross
    ensures (gross - 1) * (k - 1) <= (gross - m) * k
  {
    assert (gross - 1) * (k - 1) == gross * k - gross - k + 1;
    assert (gross - m) * k == gross * k - m * k;
    assert (m - 1) * k == m * k - k;
  }

  /** At any other rates some gross value, and the gain one short of it, are charged more than it. */
  lemma UnsafeFees(exitFeeBps: nat, performanceFeeBps: nat) returns (gross: nat)
    requires !SafeRates(exitFeeBps, performanceFeeBps)
    ensures 1 <= gross <= BPS_PRECISION + 2
    ensures Ceil(gross * exitFeeBps, BPS_PRECISION) + Ceil((gross - 1) * performanceFeeBps, BPS_PRECISION) > gross
  {
    var e, p, B := exitFeeBps, performanceFeeBps, BPS_PRECISION;
    if e == 0 {
      gross := B + 2;
      MulMono(B + 1, p, B + 1);
      CeilGalois((B + 1) * p, B, gross);
    } else {
      var k: int := B / e;
      FloorBounds(B, e);
      FloorGalois(B, e, 0);
      FloorGalois(B, e, B + 1);
      MulMono(1, e, B + 1);
      gross := k + 1;
      assert gross * e == k * e + e;
      CeilGalois(gross * e, B, 1);
      CeilGalois(k * p, B, k - 1);
    }
  }

  /** A pool of two shares in which one share is worth `gross`, and all but one unit of that is gain. */
  function TwoShares(gross: nat, exitFeeBps: nat, performanceFeeBps: nat): Pool {
    Pool(2 * gross, 2, exitFeeBps, performanceFeeBps, QUOTE_PRECISION)
  }

  lemma OneOfTwoShares(gross: nat, e: nat, p: nat)
    requires 1 <= gross <= BPS_PRECISION + 2 && e <= U16_MAX && p <= U16_MAX
    ensures var w := PreviewWithdrawal(1, TwoShares(gross, e, p));
      && w.Ok? && w.value.gross == gross
      && w.value.exitFee == Ceil(gross * e, BPS_PRECISION)
      && w.value.performanceFee == Ceil((gross - 1) * p, BPS_PRECISION)
  {
    HalfOfThePool(gross);
    GainOfAShare(gross, p);
    CeilFee(gross, e);
    BoundedFee(gross, e);
  }

  lemma HalfOfThePool(gross: nat)
    requires 1 <= gross <= BPS_PRECISION + 2
    ensures UsdcForShares(1, 2 * gross, 2) == Ok(gross)
    ensures NavPerShare(2 * gross, 2) == Ok(gross * QUOTE_PRECISION)
  {
    FloorIs(1 * (2 * gross), 2, gross);
    FloorIs(2 * gross * QUOTE_PRECISION, 2, gross * QUOTE_PRECISION);
  }

  lemma GainOfAShare(gross: nat, p: nat)
    requires 1 <= gross <= BPS_PRECISION + 2 && p <= U16_MAX
    ensures PerformanceFee(1, gross * QUOTE_PRECISION, QUOTE_PRECISION, p)
         == Ok(Ceil((gross - 1) * p, BPS_PRECISION))
  {
    CeilFee(gross - 1, p);
    BoundedFee(gross - 1, p);
    if gross > 1 {
      var gain := 1 * (gross * QUOTE_PRECISION - QUOTE_PRECISION);
      assert gain == (gross - 1) * QUOTE_PRECISION;
      FloorIs(gain, QUOTE_PRECISION, gross - 1);
      assert MulDivFloor(1, gross * QUOTE_PRECISION - QUOTE_PRECISION, QUOTE_PRECISION) == gross - 1;
    }
  }

  lemma CeilFee(base: nat, bps: nat)
    ensures MulDivCeil(base, bps, BPS_PRECISION) == Ceil(base * bps, BPS_PRECISION) >= 0
    ensures base == 0 || bps == 0 ==> Ceil(base * bps, BPS_PRECISION) == 0
  {
    MulMono(0, base, bps);
    MulDivCeilIsCeil(base, bps, BPS_PRECISION);
    if base == 0 || bps == 0 {
      assert base * bps == 0;
    }
  }

  lemma BoundedFee(base: nat, bps: nat)
    requires base <= BPS_PRECISION + 2 && bps <= U16_MAX
    ensures Ceil(base * bps, BPS_PRECISION) <= U64_MAX
  {
    MulMono(base, BPS_PRECISION + 2, bps);
    CeilGalois(base * bps, BPS_PRECISION, U64_MAX);
  }

  /**
   A redemption splits its gross value exactly, and with a mark of at least par and safe rates the
   two fees together never exceed it, although both round up.
   */
  lemma RedemptionSplits(shares: nat, pool: Pool)
    requires PreviewWithdrawal(shares, pool).Ok?
    ensures var w := PreviewWithdrawal(shares, pool).value;
      && w.payout + w.performanceFee + w.exitFee == w.gross
      && (pool.highWaterMark >= QUOTE_PRECISION && SafeRates(pool.exitFeeBps, pool.performanceFeeBps)
          ==> 0 <= w.payout <= w.gross)
  {
    var w := PreviewWithdrawal(shares, pool).value;
    if pool.highWaterMark >= QUOTE_PRECISION && SafeRates(pool.exitFeeBps, pool.performanceFeeBps) {
      var nav := NavPerShare(pool.aum, pool.supply).value;
      var gain := 0;
      if shares != 0 && nav > pool.highWaterMark {
        assert pool.supply != 0;
        GainLeavesTheShares(shares, pool, nav, w.gross);
        gain := MulDivFloor(shares, nav - pool.highWaterMark, QUOTE_PRECISION);
      }
      if w.gross > 0 {
        SafeFees(w.gross, gain, pool.exitFeeBps, pool.performanceFeeBps);
        CeilFee(w.gross, pool.exitFeeBps);
        CeilFee(gain, pool.performanceFeeBps);
      }
    }
  }

  /**
   A redemption in figures. The gross value is the most within the shares' proportion of the AUM. The
   performance fee is the least that covers its rate of the floored gain above the mark, at the floored
   NAV per share before, whether the pool drains or not; the exit fee is the least that covers its rate
   of the gross value, unless the redemption takes all the shares, which it alone says.
   */
  lemma RedemptionInFigures(shares: nat, pool: Pool, k: nat)
    requires shares > 0 && pool.supply > 0 && PreviewWithdrawal(shares, pool).Ok?
    ensures var w := PreviewWithdrawal(shares, pool).value;
      var nav := Floor(pool.aum * 1_000_000, pool.supply);
      var gain := if nav > pool.highWaterMark then Floor(shares * (nav - pool.highWaterMark), 1_000_000) else 0;
      && shares <= pool.supply
      && (k <= w.gross <==> k * pool.supply <= shares * pool.aum)
      && (w.performanceFee <= k <==> gain * pool.performanceFeeBps <= k * 10_000)
      && (shares < pool.supply ==> (w.exitFee <= k <==> w.gross * pool.exitFeeBps <= k * 10_000))
      && (shares == pool.supply ==> w.exitFee == 0)
      && (w.drainsThePool <==> shares == pool.supply)
      && w.payout == w.gross - w.performanceFee - w.exitFee
  {
    var w := PreviewWithdrawal(shares, pool).value;
    MulMono(0, pool.aum, QUOTE_PRECISION);
    QuotIsFloor(pool.aum * QUOTE_PRECISION, pool.supply);
    MulMono(0, shares, pool.aum);
    QuotIsFloor(shares * pool.aum, pool.supply);
    FloorGalois(shares * pool.aum, pool.supply, k);
    var nav := NavPerShare(pool.aum, pool.supply).value;
    FeesAreTheLeast(w.gross, shares, nav, pool.highWaterMark, pool.performanceFeeBps, k);
    FeesAreTheLeast(w.gross, shares, nav, pool.highWaterMark, pool.exitFeeBps, k);
  }

  /** Nothing is redeemed for nothing, and more shares than there are for an error. */
  lemma DegenerateRedemptions(shares: nat, pool: Pool)
    ensures shares == 0 && PreviewWithdrawal(shares, pool).Ok? ==>
      PreviewWithdrawal(shares, pool).value == Withdrawal(0, 0, 0, 0, false)
    ensures pool.supply > 0 && shares > pool.supply ==> PreviewWithdrawal(shares, pool) == Err(SharesExceedSupply)
    ensures pool.supply == 0 && PreviewWithdrawal(shares, pool).Ok? ==>
      && PreviewWithdrawal(shares, pool).value.gross == 0
      && PreviewWithdrawal(shares, pool).value.exitFee == 0
      && !PreviewWithdrawal(shares, pool).value.drainsThePool
  {
  }

  /** An empty pool is worth par, and mints one for one; so does one that lost everything. */
  lemma EmptyPools(amount: nat, aum: nat, supply: nat)
    ensures NavPerShare(aum, 0) == Ok(1_000_000)
    ensures supply == 0 || aum == 0 ==> SharesForDeposit(amount, aum, supply) == Ok(amount)
  {
  }

  /** No redemption of the pool, of however many shares, has a negative payout. */
  ghost predicate NeverOwes(pool: Pool) {
    forall shares: nat :: PreviewWithdrawal(shares, pool).Ok? ==> PreviewWithdrawal(shares, pool).value.payout >= 0
  }

  /** A pool at these rates, with a mark of at least par. */
  predicate HasRates(pool: Pool, exitFeeBps: nat, performanceFeeBps: nat) {
    pool.exitFeeBps == exitFeeBps && pool.performanceFeeBps == performanceFeeBps
    && pool.highWaterMark >= QUOTE_PRECISION
  }

  /** The condition on the rates is exact: with a mark of at least par it decides for all pools at once. */
  lemma PayoutNeverNegativeIff(exitFeeBps: nat, performanceFeeBps: nat)
    requires exitFeeBps <= U16_MAX && performanceFeeBps <= U16_MAX
    ensures SafeRates(exitFeeBps, performanceFeeBps) <==>
            forall pool: Pool | HasRates(pool, exitFeeBps, performanceFeeBps) :: NeverOwes(pool)
  {
    if SafeRates(exitFeeBps, performanceFeeBps) {
      forall pool: Pool, shares: nat
        | HasRates(pool, exitFeeBps, performanceFeeBps) && PreviewWithdrawal(shares, pool).Ok?
        ensures PreviewWithdrawal(shares, pool).value.payout >= 0
      {
        RedemptionSplits(shares, pool);
      }
    } else {
      var gross := UnsafeFees(exitFeeBps, performanceFeeBps);
      OneOfTwoShares(gross, exitFeeBps, performanceFeeBps);
      assert !NeverOwes(TwoShares(gross, exitFeeBps, performanceFeeBps));
    }
  }

  /** One half is the largest bound that makes any two rates within it safe. */
  lemma HalfIsTight(bound: nat)
    ensures (forall e: nat, p: nat :: e <= bound && p <= bound ==> SafeRates(e, p)) <==> 2 * bound <= BPS_PRECISION
  {
    if 2 * bound <= BPS_PRECISION {
      forall e: nat, p: nat | e <= bound && p <= bound
        ensures SafeRates(e, p)
      {
        if e > 0 {
          var k := BPS_PRECISION / e;
          FloorGalois(BPS_PRECISION, e, 2);
          MulMono(p, bound, k);
          MulMono(2 * bound, BPS_PRECISION, k);
        }
      }
    } else {
      var e := 5_001;
      assert !SafeRates(e, e);
    }
  }

  /** Nor would a mark below par do: without one, a gain is all of the gross value. */
  lemma ParIsNeeded()
    ensures PreviewWithdrawal(1, Pool(30, 10, 5_000, 5_000, 0)).value.payout < 0
  {
    assert Quot(30 * QUOTE_PRECISION, 10) == 3 * QUOTE_PRECISION;
  }

  // --- one step ---------------------------------------------------------------------------------

  /** AUM per share in `q` is at least that in `p`, compared by cross-multiplication. */
  predicate NavAtLeast(p: Pool, q: Pool) {
    p.aum * q.supply <= q.aum * p.supply
  }

  /** Redeeming takes at most the redeemed share of the pool; taking all the shares takes it all. */
  lemma RedeemedValue(shares: nat, pool: Pool)
    requires 0 < shares <= pool.supply && UsdcForShares(shares, pool.aum, pool.supply).Ok?
    ensures var gross := UsdcForShares(shares, pool.aum, pool.supply).value;
      && gross * pool.supply <= shares * pool.aum
      && gross <= pool.aum
      && (shares == pool.supply ==> gross == pool.aum)
      && (shares < pool.supply && pool.aum > 0 ==> gross < pool.aum)
  {
    var n, S := shares * pool.aum, pool.supply;
    MulMono(0, shares, pool.aum);
    QuotIsFloor(n, S);
    FloorBounds(n, S);
    MulMono(shares, S, pool.aum);
    FloorGalois(n, S, pool.aum);
    FloorMono(n, pool.aum * S, S);
    FloorIs(pool.aum * S, S, pool.aum);
    if shares < S {
      assert (shares + 1) * pool.aum == n + pool.aum;
      MulMono(shares + 1, S, pool.aum);
    }
  }

  /** Every redemption lowers AUM by the gross value less the exit fee, which stays behind. */
  lemma RedeemStep(pool: Pool, shares: nat)
    ensures Apply(pool, Redeem(shares)).Ok? ==>
      var q, w := Apply(pool, Redeem(shares)).value, Settled(shares, pool).value;
      && 0 < shares <= pool.supply
      && UsdcForShares(shares, pool.aum, pool.supply) == Ok(w.gross)
      && q.aum == pool.aum - w.gross + w.exitFee
      && q.supply == pool.supply - shares
      && (shares == pool.supply ==> w.exitFee == 0)
      && q.highWaterMark >= pool.highWaterMark
  {
  }

  /** Afterwards the mark is the higher of the old one and the NAV per share, which is par without shares. */
  lemma RedemptionRaisesTheMark(pool: Pool, shares: nat, k: nat)
    ensures Apply(pool, Redeem(shares)).Ok? ==>
      var q := Apply(pool, Redeem(shares)).value;
      k <= q.highWaterMark <==>
        || k <= pool.highWaterMark
        || (if q.supply == 0 then k <= 1_000_000 else k * q.supply <= q.aum * 1_000_000)
  {
    if Apply(pool, Redeem(shares)).Ok? {
      var q := Apply(pool, Redeem(shares)).value;
      if q.supply > 0 {
        MulMono(0, q.aum, QUOTE_PRECISION);
        QuotIsFloor(q.aum * QUOTE_PRECISION, q.supply);
        FloorGalois(q.aum * QUOTE_PRECISION, q.supply, k);
      }
    }
  }

  lemma DepositStep(pool: Pool, amount: nat)
    requires Apply(pool, Deposit(amount)).Ok?
    ensures var q, shares := Apply(pool, Deposit(amount)).value, Minted(amount, pool).value;
      && amount > 0 && shares > 0 && SharesForDeposit(amount, pool.aum, pool.supply) == Ok(shares)
      && q == pool.(aum := pool.aum + amount, supply := pool.supply + shares)
      && shares * pool.aum <= amount * pool.supply + (if pool.supply == 0 then amount * pool.aum else 0)
  {
    if pool.supply > 0 && pool.aum > 0 {
      var n := amount * pool.supply;
      QuotIsFloor(n, pool.aum);
      FloorBounds(n, pool.aum);
    }
  }

  lemma SharesBoughtDear(aum: nat, supply: nat, amount: nat, shares: nat)
    requires shares * aum <= amount * supply
    ensures aum * (supply + shares) <= (aum + amount) * supply
  {
    assert aum * (supply + shares) == aum * supply + shares * aum;
    assert (aum + amount) * supply == aum * supply + amount * supply;
  }

  lemma SharesSoldCheap(aum: nat, supply: nat, shares: nat, gross: nat, exitFee: nat)
    requires gross * supply <= shares * aum
    ensures aum * (supply - shares) <= (aum - gross + exitFee) * supply
  {
    assert aum * (supply - shares) == aum * supply - shares * aum;
    assert (aum - gross + exitFee) * supply == aum * supply - gross * supply + exitFee * supply;
    MulMono(0, exitFee, supply);
  }

  /** Neither a deposit nor a redemption moves AUM per share against those who stay. */
  lemma NavNeverFallsInAStep(pool: Pool, step: Step)
    requires step.Deposit? || step.Redeem?
    requires Apply(pool, step).Ok? && pool.supply > 0
    ensures NavAtLeast(pool, Apply(pool, step).value)
  {
    match step
    case Deposit(amount) =>
      DepositStep(pool, amount);
      SharesBoughtDear(pool.aum, pool.supply, amount, Minted(amount, pool).value);
    case Redeem(shares) =>
      RedeemStep(pool, shares);
      RedeemedValue(shares, pool);
      var w := Settled(shares, pool).value;
      SharesSoldCheap(pool.aum, pool.supply, shares, w.gross, w.exitFee);
  }

  /** A comparison of ratios composes, as long as the middle pool has shares. */
  lemma NavAtLeastTransitive(p: Pool, q: Pool, r: Pool)
    requires q.supply > 0 && NavAtLeast(p, q) && NavAtLeast(q, r)
    ensures NavAtLeast(p, r)
  {
    RatioTransitive(p.aum, p.supply, q.aum, q.supply, r.aum, r.supply);
  }

  // --- whole runs -------------------------------------------------------------------------------

  /** The displayed NAV, floored, follows AUM per share. */
  lemma FlooredNavFollows(p: Pool, r: Pool)
    requires p.supply > 0 && r.supply > 0 && NavAtLeast(p, r)
    ensures MulDivFloor(p.aum, QUOTE_PRECISION, p.supply) <= MulDivFloor(r.aum, QUOTE_PRECISION, r.supply)
  {
    FloorOfRatioMono(p.aum, p.supply, r.aum, r.supply, QUOTE_PRECISION);
    QuotIsFloor(p.aum * QUOTE_PRECISION, p.supply);
    QuotIsFloor(r.aum * QUOTE_PRECISION, r.supply);
  }

  /**
   Over every run of deposits and redemptions during which shares exist, AUM per share never falls,
   and so neither does the floored figure the client displays.
   */
  lemma {:induction false} NavNeverFalls(states: seq<Pool>, steps: seq<Step>)
    requires IsRun(states, steps)
    requires forall i :: 0 <= i < |steps| ==> steps[i].Deposit? || steps[i].Redeem?
    requires forall i :: 0 <= i < |states| ==> states[i].supply > 0
    ensures NavAtLeast(states[0], states[|steps|])
    ensures var before, after := NavPerShare(states[0].aum, states[0].supply),
                                 NavPerShare(states[|steps|].aum, states[|steps|].supply);
      before.Ok? && after.Ok? ==> before.value <= after.value
  {
    if |steps| > 0 {
      var n := |steps| - 1;
      NavNeverFalls(states[..n + 1], steps[..n]);
      assert Apply(states[n], steps[n]) == Ok(states[n + 1]);
      NavNeverFallsInAStep(states[n], steps[n]);
      NavAtLeastTransitive(states[0], states[n], states[n + 1]);
    }
    FlooredNavFollows(states[0], states[|steps|]);
  }

  /** One half of the program's invariant I8: no AUM without shares. */
  predicate NoStrandedAum(pool: Pool) {
    pool.supply == 0 ==> pool.aum == 0
  }

  /** The other half: no shares without AUM. */
  predicate NoWorthlessShares(pool: Pool) {
    pool.aum == 0 ==> pool.supply == 0
  }

  /** A settlement that leaves AUM behind when there are no shares to own it. */
  predicate Strands(pool: Pool, step: Step) {
    step.PoolSettlement? && pool.supply == 0 && step.delta != 0
  }

  /** A settlement that takes the last of the AUM while there are shares. */
  predicate WipesOut(pool: Pool, step: Step) {
    step.PoolSettlement? && pool.supply > 0 && pool.aum + step.delta == 0
  }

  /**
   Deposits and redemptions keep both halves of the invariant, a draining redemption because it
   waives the exit fee. A settlement breaks one exactly when it strands AUM, the other exactly when
   it wipes the pool out.
   */
  lemma InvariantBreaksIff(pool: Pool, step: Step)
    requires Apply(pool, step).Ok?
    ensures NoStrandedAum(pool) ==> (NoStrandedAum(Apply(pool, step).value) <==> !Strands(pool, step))
    ensures NoWorthlessShares(pool) ==> (NoWorthlessShares(Apply(pool, step).value) <==> !WipesOut(pool, step))
  {
    match step
    case Deposit(amount) => DepositStep(pool, amount);
    case Redeem(shares) => RedeemStep(pool, shares); RedeemedValue(shares, pool);
    case PoolSettlement(_) =>
  }

  lemma {:induction false} SettledSafelySoFar(states: seq<Pool>, steps: seq<Step>, n: nat)
    requires IsRun(states, steps) && IsEmptyPool(states[0]) && n <= |steps|
    ensures (forall i :: 0 <= i < n ==> !Strands(states[i], steps[i])) ==> NoStrandedAum(states[n])
    ensures (forall i :: 0 <= i < n ==> !WipesOut(states[i], steps[i])) ==> NoWorthlessShares(states[n])
  {
    if n > 0 {
      SettledSafelySoFar(states, steps, n - 1);
      assert Apply(states[n - 1], steps[n - 1]) == Ok(states[n]);
      InvariantBreaksIff(states[n - 1], steps[n - 1]);
    }
  }

  /**
   Invariant I8 over every run from the empty pool. Zero supply means zero AUM throughout if and only
   if no trade ever settled for something while there were no shares; and zero AUM means zero supply
   throughout if and only if no settlement took the last of it while there were some.
   */
  lemma SupplyAndAumVanishTogether(states: seq<Pool>, steps: seq<Step>)
    requires IsRun(states, steps) && IsEmptyPool(states[0])
    ensures (forall i :: 0 <= i <= |steps| ==> NoStrandedAum(states[i])) <==>
            (forall i :: 0 <= i < |steps| ==> !Strands(states[i], steps[i]))
    ensures (forall i :: 0 <= i <= |steps| ==> NoWorthlessShares(states[i])) <==>
            (forall i :: 0 <= i < |steps| ==> !WipesOut(states[i], steps[i]))
  {
    forall n | 0 <= n <= |steps|
      ensures (forall i :: 0 <= i < |steps| ==> !Strands(states[i], steps[i])) ==> NoStrandedAum(states[n])
      ensures (forall i :: 0 <= i < |steps| ==> !WipesOut(states[i], steps[i])) ==> NoWorthlessShares(states[n])
    {
      SettledSafelySoFar(states, steps, n);
    }
    if forall i :: 0 <= i <= |steps| ==> NoStrandedAum(states[i]) {
      forall i | 0 <= i < |steps|
        ensures !Strands(states[i], steps[i])
      {
        assert Apply(states[i], steps[i]) == Ok(states[i + 1]);
        InvariantBreaksIff(states[i], steps[i]);
      }
    }
    if forall i :: 0 <= i <= |steps| ==> NoWorthlessShares(states[i]) {
      forall i | 0 <= i < |steps|
        ensures !WipesOut(states[i], steps[i])
      {
        assert Apply(states[i], steps[i]) == Ok(states[i + 1]);
        InvariantBreaksIff(states[i], steps[i]);
      }
    }
  }

  /** In particular while every settlement falls at a positive supply, and the pool loses on none. */
  lemma SettlementsAmongShares(states: seq<Pool>, steps: seq<Step>)
    requires IsRun(states, steps) && IsEmptyPool(states[0])
    requires forall i :: 0 <= i < |steps| && steps[i].PoolSettlement? ==> states[i].supply > 0
    ensures NoStrandedAum(states[|steps|])
    ensures (forall i :: 0 <= i < |steps| && steps[i].PoolSettlement? ==> steps[i].delta >= 0) ==>
              (states[|steps|].supply == 0 <==> states[|steps|].aum == 0)
  {
    SettledSafelySoFar(states, steps, |steps|);
    if forall i :: 0 <= i < |steps| && steps[i].PoolSettlement? ==> steps[i].delta >= 0 {
      GainsNeverWipeOut(states, steps, |steps|);
    }
  }

  lemma {:induction false} GainsNeverWipeOut(states: seq<Pool>, steps: seq<Step>, n: nat)
    requires IsRun(states, steps) && IsEmptyPool(states[0]) && n <= |steps|
    requires forall i :: 0 <= i < |steps| && steps[i].PoolSettlement? ==> steps[i].delta >= 0
    ensures NoWorthlessShares(states[n])
  {
    if n > 0 {
      GainsNeverWipeOut(states, steps, n - 1);
      assert Apply(states[n - 1], steps[n - 1]) == Ok(states[n]);
      InvariantBreaksIff(states[n - 1], steps[n - 1]);
    }
  }

  /**
   And a pool with AUM and no shares is reached, at any rates and with any amount: somebody deposits,
   a trade opens, everybody redeems, and the trade then settles in the pool's favour.
   */
  lemma StrandedPoolIsReachable(empty: Pool, left: nat)
    requires IsEmptyPool(empty) && left <= U64_MAX
    ensures var deposited := empty.(aum := 1, supply := 1);
      IsRun([empty, deposited, empty, empty.(aum := left)], [Deposit(1), Redeem(1), PoolSettlement(left)])
  {
    var deposited := empty.(aum := 1, supply := 1);
    assert NavPerShare(1, 1) == Ok(QUOTE_PRECISION);
    assert UsdcForShares(1, 1, 1) == Ok(1);
    assert Apply(deposited, Redeem(1)) == Ok(empty);
  }

  /** The high-water mark starts at par and never falls, whatever settles; the rates stay. */
  lemma {:induction false} MarkNeverBelowPar(states: seq<Pool>, steps: seq<Step>)
    requires IsRun(states, steps) && IsEmptyPool(states[0])
    ensures states[|steps|].highWaterMark >= QUOTE_PRECISION
    ensures states[|steps|].exitFeeBps == states[0].exitFeeBps
    ensures states[|steps|].performanceFeeBps == states[0].performanceFeeBps
  {
    if |steps| > 0 {
      var n := |steps| - 1;
      MarkNeverBelowPar(states[..n + 1], steps[..n]);
      assert Apply(states[n], steps[n]) == Ok(states[n + 1]);
    }
  }

  /** No run from this pool ever reaches a redemption whose fees exceed its gross value. */
  ghost predicate RunsNeverOwe(empty: Pool) {
    forall states: seq<Pool>, steps: seq<Step>, shares: nat ::
      IsRun(states, steps) && states[0] == empty ==> Settled(shares, states[|steps|]) != Err(FeesExceedGross)
  }

  /** So over all runs from the empty pool, too, it is the rates that decide, and exactly. */
  lemma RedemptionsNeverOwe(empty: Pool)
    requires IsEmptyPool(empty) && empty.exitFeeBps <= U16_MAX && empty.performanceFeeBps <= U16_MAX
    ensures RunsNeverOwe(empty) <==> SafeRates(empty.exitFeeBps, empty.performanceFeeBps)
  {
    if SafeRates(empty.exitFeeBps, empty.performanceFeeBps) {
      forall states: seq<Pool>, steps: seq<Step>, shares: nat | IsRun(states, steps) && states[0] == empty
        ensures Settled(shares, states[|steps|]) != Err(FeesExceedGross)
      {
        MarkNeverBelowPar(states, steps);
        if PreviewWithdrawal(shares, states[|steps|]).Ok? {
          RedemptionSplits(shares, states[|steps|]);
        }
      }
    } else {
      var e, p := empty.exitFeeBps, empty.performanceFeeBps;
      var gross := UnsafeFees(e, p);
      OneOfTwoShares(gross, e, p);
      var states := [empty, empty.(aum := 2, supply := 2), TwoShares(gross, e, p)];
      var steps := [Deposit(2), PoolSettlement(2 * gross - 2)];
      assert IsRun(states, steps);
      assert Settled(1, states[|steps|]) == Err(FeesExceedGross);
    }
  }
}
