/** Maintenance margin and the liquidation price (`clients/js/src/margin.ts`). */
module Margin {
  import opened BigInts
  import opened Results
  import opened Units
  import opened Desk

  /** Upper bounds, exclusive, and the multiplier below each. */
  const MMR_TIERS: seq<(nat, nat)> := [
    (100_000_000_000, 10_000),
    (1_000_000_000_000, 15_000),
    (5_000_000_000_000, 25_000)]

  function ScanTiers(tiers: seq<(nat, nat)>, notional: nat): nat {
    if tiers == [] then 40_000
    else if notional < tiers[0].0 then tiers[0].1
    else ScanTiers(tiers[1..], notional)
  }

  function MmrMultiplierBps(notional: nat): nat {
    ScanTiers(MMR_TIERS, notional)
  }

  function MaintenanceMargin(notional: nat, mmrBps: nat): int {
    MulDivCeil(MulDivCeil(notional, mmrBps, BPS_PRECISION), MmrMultiplierBps(notional), BPS_PRECISION)
  }

  lemma MultiplierByTier(notional: nat)
    ensures MmrMultiplierBps(notional) ==
      if notional < 100_000_000_000 then 10_000
      else if notional < 1_000_000_000_000 then 15_000
      else if notional < 5_000_000_000_000 then 25_000
      else 40_000
  {
    var second := MMR_TIERS[1..];
    var third := second[1..];
    assert third[1..] == [];
    assert ScanTiers(third, notional) == if notional < 5_000_000_000_000 then 25_000 else 40_000;
    assert ScanTiers(second, notional) ==
        if notional < 1_000_000_000_000 then 15_000 else ScanTiers(third, notional);
  }

  /** The margin is the least amount that covers the tier's multiple of the rate, rounded up in between. */
  lemma MarginIsTheLeast(notional: nat, mmrBps: nat, k: nat)
    ensures MaintenanceMargin(notional, mmrBps) <= k <==>
            Ceil(notional * mmrBps, BPS_PRECISION) * MmrMultiplierBps(notional) <= k * BPS_PRECISION
  {
    MulMono(0, notional, mmrBps);
    MulDivCeilIsCeil(notional, mmrBps, BPS_PRECISION);
    var base := Ceil(notional * mmrBps, BPS_PRECISION);
    MulMono(0, base, MmrMultiplierBps(notional));
    MulDivCeilIsCeil(base, MmrMultiplierBps(notional), BPS_PRECISION);
    CeilGalois(base * MmrMultiplierBps(notional), BPS_PRECISION, k);
  }

  /** Through both roundings and across the tier boundaries, more notional never needs less margin. */
  lemma MarginIsMonotone(m: nat, n: nat, mmrBps: nat)
    requires m <= n
    ensures 0 <= MaintenanceMargin(m, mmrBps) <= MaintenanceMargin(n, mmrBps)
  {
    MultiplierByTier(m);
    MultiplierByTier(n);
    MulDivCeilMono(m, n, mmrBps, mmrBps, BPS_PRECISION);
    var (a, b) := (MulDivCeil(m, mmrBps, BPS_PRECISION), MulDivCeil(n, mmrBps, BPS_PRECISION));
    MulDivCeilMono(a, b, MmrMultiplierBps(m), MmrMultiplierBps(n), BPS_PRECISION);
  }

  datatype AccruedCosts = AccruedCosts(carry: nat, funding: int, closeFee: nat)

  datatype Holding = Holding(
    sizeBase: nat,
    entryPrice: int,
    collateral: nat,
    maintenanceMargin: nat,
    costs: AccruedCosts,
    direction: Direction)

  /** How much profit and loss the position can lose before equity reaches the maintenance margin. */
  function Budget(h: Holding): int {
    h.collateral - h.costs.carry - h.costs.funding - h.costs.closeFee - h.maintenanceMargin
  }

  function UnclampedLiquidation(h: Holding): int
    requires h.sizeBase > 0
  {
    var moveMagnitude := MulDivFloorSigned(Budget(h), NOTIONAL_DIVISOR, h.sizeBase);
    var sign := if h.direction.Long? then 1 else -1;
    h.entryPrice - moveMagnitude * sign
  }

  function LiquidationPrice(h: Holding): Option<int> {
    if h.sizeBase == 0 then None
    else if h.entryPrice <= 0 then None
    else
      var liq := UnclampedLiquidation(h);
      Some(if liq <= 0 then 1 else liq)
  }

  /** Equity at `price`, with the costs and the maintenance margin held fixed. */
  function Equity(h: Holding, price: int): int {
    h.collateral - h.costs.carry - h.costs.funding - h.costs.closeFee
    + EstimatePnl(h.direction, h.sizeBase, h.entryPrice, price, NoConversion)
  }

  /** The program's test, strict: equity at the margin is still safe. */
  predicate IsLiquidatable(h: Holding, price: int) {
    Equity(h, price) < h.maintenanceMargin
  }

  /** Two floors meet: the budget survives the floored loss exactly up to the floored move. */
  lemma BudgetCoversMove(budget: int, size: nat, move: int)
    requires size > 0
    ensures budget + FloorDiv(size * move, NOTIONAL_DIVISOR) >= 0 <==>
            -MulDivFloorSigned(budget, NOTIONAL_DIVISOR, size) <= move
  {
    FloorDivIsFloor(size * move, NOTIONAL_DIVISOR);
    FloorGalois(size * move, NOTIONAL_DIVISOR, -budget);
    MulDivFloorSignedIsFloor(budget, NOTIONAL_DIVISOR, size);
    FloorGalois(budget * NOTIONAL_DIVISOR, size, -move);
    assert -move * size == -(size * move);
    assert -budget * NOTIONAL_DIVISOR == -(budget * NOTIONAL_DIVISOR);
  }

  /** Without a size or a positive entry there is no price to give. */
  lemma LiquidationIsGiven(h: Holding)
    ensures LiquidationPrice(h).Some? <==> h.sizeBase > 0 && h.entryPrice > 0
    ensures LiquidationPrice(h).Some? ==> LiquidationPrice(h).value == Larger(UnclampedLiquidation(h), 1)
  {
  }

  function Larger(a: int, b: int): int {
    if a > b then a else b
  }

  /**
   Before the clamp the price is the exact boundary of the program's own test: at every positive
   price the position is safe if and only if the price has not passed it.
   */
  lemma LiquidationIsTheBoundary(h: Holding, price: int)
    requires h.sizeBase > 0 && h.entryPrice > 0 && price > 0
    ensures !IsLiquidatable(h, price) <==> NoWorse(h.direction, UnclampedLiquidation(h), price)
  {
    BudgetCoversMove(Budget(h), h.sizeBase, Move(h.direction, h.entryPrice, price));
  }

  /**
   The clamp to 1 keeps that for a long. For a short it is wrong at one price only: where the true
   boundary is zero or below, the answer 1 calls a position safe at 1 that is not.
   */
  lemma ClampedBoundary(h: Holding, price: int)
    requires h.sizeBase > 0 && h.entryPrice > 0 && price > 0
    ensures LiquidationPrice(h).Some?
    ensures (!IsLiquidatable(h, price) <==> NoWorse(h.direction, LiquidationPrice(h).value, price)) <==>
            !(h.direction.Short? && UnclampedLiquidation(h) <= 0 && price == 1)
  {
    LiquidationIsTheBoundary(h, price);
  }
}
