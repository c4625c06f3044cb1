/**
 One liquidity provider's account over `LpPool`: what a provider can take out against what they put
 in. The promise of `clients/js/src/lp.ts` is that moving liquidity in and out, with nothing else
 happening, is never worth anything.
 */
module LpAccounts {
  import opened BigInts
  import opened Results
  import opened Units
  import opened LpPool

  /** A provider: the shares held, and the USDC moved each way, fees to the treasury included. */
  datatype Ledger = Ledger(pool: Pool, held: nat, paidIn: nat, paidOut: nat, treasury: nat)

  function Act(l: Ledger, step: Step): Result<Ledger, Refusal>
    requires !step.PoolSettlement?
  {
    match step
    case Deposit(amount) =>
      var pool :- Apply(l.pool, step);
      var shares :- Minted(amount, l.pool);
      Ok(l.(pool := pool, held := l.held + shares, paidIn := l.paidIn + amount))
    case Redeem(shares) =>
      if shares > l.held then Err(InsufficientShares)
      else
        var pool :- Apply(l.pool, step);
        var w :- Settled(shares, l.pool);
        Ok(l.(pool := pool, held := l.held - shares, paidOut := l.paidOut + w.payout,
              treasury := l.treasury + w.performanceFee))
  }

  ghost predicate IsAccountRun(ledgers: seq<Ledger>, steps: seq<Step>) {
    && |ledgers| == |steps| + 1
    && forall i :: 0 <= i < |steps| ==> !steps[i].PoolSettlement? && Act(ledgers[i], steps[i]) == Ok(ledgers[i + 1])
  }

  /** What a provider's steps keep: the others' shares, all the USDC, and the NAV they started from. */
  ghost predicate Kept(start: Ledger, l: Ledger) {
    && l.pool.supply - l.held == start.pool.supply - start.held
    && l.pool.aum + l.paidOut + l.treasury - l.paidIn
       == start.pool.aum + start.paidOut + start.treasury - start.paidIn
    && (start.pool.supply > start.held ==> NavAtLeast(start.pool, l.pool))
  }

  /** One act moves nobody else's shares, and every unit of USDC it moves is accounted for. */
  lemma ActBalances(l: Ledger, step: Step)
    requires !step.PoolSettlement? && Act(l, step).Ok?
    ensures var m := Act(l, step).value;
      && Apply(l.pool, step) == Ok(m.pool)
      && m.pool.supply - m.held == l.pool.supply - l.held
      && m.pool.aum + m.paidOut + m.treasury - m.paidIn == l.pool.aum + l.paidOut + l.treasury - l.paidIn
  {
    match step
    case Deposit(amount) => DepositStep(l.pool, amount);
    case Redeem(shares) => RedeemStep(l.pool, shares);
  }

  lemma {:induction false} AccountKeeps(ledgers: seq<Ledger>, steps: seq<Step>)
    requires IsAccountRun(ledgers, steps) && ledgers[0].held <= ledgers[0].pool.supply
    ensures Kept(ledgers[0], ledgers[|steps|])
  {
    if |steps| > 0 {
      var n := |steps| - 1;
      AccountKeeps(ledgers[..n + 1], steps[..n]);
      var l := ledgers[n];
      assert Act(l, steps[n]) == Ok(ledgers[n + 1]);
      ActBalances(l, steps[n]);
      if ledgers[0].pool.supply > ledgers[0].held {
        NavNeverFallsInAStep(l.pool, steps[n]);
        NavAtLeastTransitive(ledgers[0].pool, l.pool, ledgers[n + 1].pool);
      }
    }
  }

  /**
   No provider who starts and ends without shares takes out more than they put in, however they
   interleave deposits and redemptions, from any pool where zero supply means zero AUM; what the
   treasury collected on the way is a further loss.
   */
  lemma NoProfitFromMovingLiquidity(ledgers: seq<Ledger>, steps: seq<Step>)
    requires IsAccountRun(ledgers, steps)
    requires ledgers[0].pool.supply == 0 ==> ledgers[0].pool.aum == 0
    requires ledgers[0].held == 0 && ledgers[|steps|].held == 0
    requires ledgers[0].paidIn == ledgers[0].paidOut == ledgers[0].treasury == 0
    ensures var end := ledgers[|steps|]; end.paidOut + end.treasury <= end.paidIn
  {
    var start, end := ledgers[0], ledgers[|steps|];
    AccountKeeps(ledgers, steps);
    if start.pool.supply > 0 {
      MulCancel(start.pool.aum, end.pool.aum, start.pool.supply);
    }
  }

  // --- and where the assumption fails ------------------------------------------------------------

  /** The first deposit into a pool with AUM and no shares, and its redemption. */
  lemma FirstDepositTakesAll(start: Pool, amount: nat)
    requires start.supply == 0 && start.performanceFeeBps <= BPS_PRECISION
    requires amount > 0 && start.aum + amount <= U64_MAX && NavPerShare(start.aum + amount, amount).Ok?
    ensures var middle := Act(Ledger(start, 0, 0, 0, 0), Deposit(amount));
      && middle == Ok(Ledger(start.(aum := start.aum + amount, supply := amount), amount, amount, 0, 0))
      && var end := Act(middle.value, Redeem(amount));
      && end.Ok? && end.value.held == 0 && end.value.paidIn == amount
      && end.value.paidOut + end.value.treasury == amount + start.aum
      && (start.highWaterMark >= QUOTE_PRECISION && amount > start.aum * QUOTE_PRECISION ==>
            end.value.treasury == 0)
  {
    var aum := start.aum + amount;
    var full := start.(aum := aum, supply := amount);
    FloorIs(amount * aum, amount, aum);
    MulMono(0, amount, aum);
    QuotIsFloor(amount * aum, amount);
    assert UsdcForShares(amount, aum, amount) == Ok(aum);
    var nav := NavPerShare(aum, amount).value;
    GainWithinAum(amount, aum, nav, start.highWaterMark, start.performanceFeeBps);
    if amount > start.aum * QUOTE_PRECISION {
      assert aum * QUOTE_PRECISION < QUOTE_PRECISION * amount + amount;
      FloorGalois(aum * QUOTE_PRECISION, amount, QUOTE_PRECISION + 1);
      MulMono(0, aum, QUOTE_PRECISION);
      QuotIsFloor(aum * QUOTE_PRECISION, amount);
      assert nav <= QUOTE_PRECISION;
    }
    var w := PreviewWithdrawal(amount, full);
    assert w.Ok? && w.value.gross == aum && w.value.exitFee == 0;
  }

  /** At a rate of at most the whole, the fee on a redemption of everything is within the AUM. */
  lemma GainWithinAum(supply: nat, aum: nat, nav: nat, mark: nat, feeBps: nat)
    requires supply > 0 && aum <= U64_MAX && NavPerShare(aum, supply) == Ok(nav) && feeBps <= BPS_PRECISION
    ensures PerformanceFee(supply, nav, mark, feeBps).Ok?
    ensures PerformanceFee(supply, nav, mark, feeBps).value <= aum
  {
    if nav > mark && feeBps != 0 {
      var n := supply * (nav - mark);
      MulMono(0, aum, QUOTE_PRECISION);
      QuotIsFloor(aum * QUOTE_PRECISION, supply);
      FloorBounds(aum * QUOTE_PRECISION, supply);
      MulMono(0, nav - mark, supply);
      MulMono(nav - mark, nav, supply);
      QuotIsFloor(n, QUOTE_PRECISION);
      FloorGalois(n, QUOTE_PRECISION, aum + 1);
      var gain := MulDivFloor(supply, nav - mark, QUOTE_PRECISION);
      MulMono(0, gain, feeBps);
      MulDivCeilIsCeil(gain, feeBps, BPS_PRECISION);
      MulMono(feeBps, BPS_PRECISION, gain);
      CeilGalois(gain * feeBps, BPS_PRECISION, gain);
    }
  }

  /**
   Every pool with AUM and no shares that can still take a deposit pays its first provider: with a
   large enough deposit all of the AUM, or else all of it between the provider and the treasury.
   */
  lemma StrandedAumIsCollected(start: Pool)
    requires start.supply == 0 && start.performanceFeeBps <= BPS_PRECISION
    requires 0 < start.aum <= U64_MAX - QUOTE_PRECISION
    ensures !NoRunProfits(start)
  {
    var amount := U64_MAX - start.aum;
    NavFits(start.aum + amount, amount);
    FirstDepositTakesAll(start, amount);
    var l0 := Ledger(start, 0, 0, 0, 0);
    var l1 := Act(l0, Deposit(amount)).value;
    var l2 := Act(l1, Redeem(amount)).value;
    var ledgers, steps := [l0, l1, l2], [Deposit(amount), Redeem(amount)];
    assert IsAccountRun(ledgers, steps);
    assert ledgers[|steps|].paidOut + ledgers[|steps|].treasury > ledgers[|steps|].paidIn;
  }

  lemma NavFits(aum: nat, supply: nat)
    requires aum <= U64_MAX && supply >= QUOTE_PRECISION
    ensures NavPerShare(aum, supply).Ok?
  {
    MulMono(0, aum, QUOTE_PRECISION);
    QuotIsFloor(aum * QUOTE_PRECISION, supply);
    MulMono(QUOTE_PRECISION, supply, U64_MAX + 1);
    FloorGalois(aum * QUOTE_PRECISION, supply, U64_MAX + 1);
  }

  /** Nobody profits from moving liquidity in and out of this pool, however they go about it. */
  ghost predicate NoRunProfits(start: Pool) {
    forall ledgers: seq<Ledger>, steps: seq<Step> ::
      IsAccountRun(ledgers, steps) && ledgers[0] == Ledger(start, 0, 0, 0, 0) && ledgers[|steps|].held == 0 ==>
        ledgers[|steps|].paidOut + ledgers[|steps|].treasury <= ledgers[|steps|].paidIn
  }

  /**
   Within a million units of the largest `u64`, a pool without shares has room only for deposits so
   small that their NAV per share no longer fits: whatever is deposited, nothing can be redeemed.
   */
  lemma {:induction false} FullPoolPaysNobody(ledgers: seq<Ledger>, steps: seq<Step>)
    requires IsAccountRun(ledgers, steps) && ledgers[0] == Ledger(ledgers[0].pool, 0, 0, 0, 0)
    requires ledgers[0].pool.supply == 0 && ledgers[0].pool.aum > U64_MAX - QUOTE_PRECISION
    ensures var l := ledgers[|steps|];
      && l.paidOut == 0 && l.treasury == 0
      && l.pool.aum == ledgers[0].pool.aum + l.paidIn && l.pool.supply <= l.paidIn
      && (l.pool.supply > 0 ==> l.pool.aum <= U64_MAX)
  {
    if |steps| > 0 {
      var n := |steps| - 1;
      FullPoolPaysNobody(ledgers[..n + 1], steps[..n]);
      var l := ledgers[n];
      assert Act(l, steps[n]) == Ok(ledgers[n + 1]);
      match steps[n]
      case Deposit(amount) =>
        DepositStep(l.pool, amount);
        if l.pool.supply > 0 {
          MulMono(l.pool.supply, l.pool.aum, amount);
          MulCancel(Minted(amount, l.pool).value, amount, l.pool.aum);
        }
      case Redeem(shares) =>
        RedeemStep(l.pool, shares);
        NavOverflows(l.pool.aum, l.pool.supply, ledgers[0].pool.aum);
    }
  }

  lemma NavOverflows(aum: nat, supply: nat, before: nat)
    requires 0 < supply <= aum - before && U64_MAX - QUOTE_PRECISION < before && aum <= U64_MAX
    ensures NavPerShare(aum, supply).Err?
  {
    var n := aum * QUOTE_PRECISION;
    assert supply * (U64_MAX + 1) <= n;
    QuotIsFloor(n, supply);
    FloorGalois(n, supply, U64_MAX + 1);
  }

  /** So the assumption is exact, but for pools so full that no deposit can be taken out again. */
  lemma NoRunProfitsIff(start: Pool)
    requires start.performanceFeeBps <= BPS_PRECISION
    ensures NoRunProfits(start) <==> NoStrandedAum(start) || start.aum > U64_MAX - QUOTE_PRECISION
  {
    if NoStrandedAum(start) || start.aum > U64_MAX - QUOTE_PRECISION {
      forall ledgers: seq<Ledger>, steps: seq<Step>
        | IsAccountRun(ledgers, steps) && ledgers[0] == Ledger(start, 0, 0, 0, 0) && ledgers[|steps|].held == 0
        ensures ledgers[|steps|].paidOut + ledgers[|steps|].treasury <= ledgers[|steps|].paidIn
      {
        if NoStrandedAum(start) {
          NoProfitFromMovingLiquidity(ledgers, steps);
        } else {
          FullPoolPaysNobody(ledgers, steps);
        }
      }
    } else {
      StrandedAumIsCollected(start);
    }
  }
}
