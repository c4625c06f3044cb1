# SolFX and NOXFUNDS client logic, in Dafny

The clients of this exchange repeat, in TypeScript, decisions the Solana programs make: what an
order fills at, when a position is liquidated, what a liquidity provider is owed, whether a ticket
would be refused. This project models that logic over unbounded integers with the source's own
rounding, proves what it is for, and where client and program can be compared proves when they agree.

One module per source file or concern:

| file | models |
|---|---|
| `BigInts.dfy`, `Digits.dfy`, `Text.dfy`, `Results.dfy`, `Units.dfy` | `bigint` division and the rounding helpers; digit strings; `trim`; optional values; scales |
| `LpPool.dfy`, `LpAccounts.dfy` | liquidity shares, fees, and the pool's steps; one provider's account |
| `Reduce.dfy`, `Margin.dfy`, `Pricing.dfy` | partial closes; maintenance margin and liquidation; execution prices and the ticket's margin |
| `Desk.dfy`, `Evaluation.dfy`, `Orders.dfy` | conversion, sizing, stops, risk and profit; ticket rules and the marked book; entry orders and stop moves |
| `Settlement.dfy`, `Stage.dfy`, `Mandates.dfy` | the payout split; evaluation stages against `claim_stage_pass`; mandate rules against `check_rules` |
| `Decimals.dfy` | the printer of fixed-point numbers and the three parsers |
| `WorkerPool.dfy`, `History.dfy` | the bounded pool of asynchronous workers as a step system, and the history page built on it |
| `SendErrors.dfy`, `Innermost.dfy` | the depth-first walk over a thrown value; when the innermost message is the one reported |
| `Triggers.dfy` | resting orders at reused position addresses, as a chain of steps |

`Quot` and `Rem` are the source's `/` and `%`, which truncate towards zero. Code that changes state is
a class or a method (`WorkerPool.Pool`, `SendErrors.Walk`, the loops of `History`, `Triggers`,
`Evaluation`, `Orders`, `Mandates`), proved against a function whose properties are then proved as
lemmas; code made of expressions is a function. Reading the chain, decoding accounts and log lines,
and regular expressions on log lines are parameters; awaited calls settle in any order.

## Where the code and its documentation differ

The model follows the code. Each of these is a lemma below.

- `app/src/lib/nox.ts:776-780` says the blocker names the refusal that would come back, and that every
  requirement of `claim_stage_pass` is represented. Pending entry orders are not, and the drawdown is
  floored where the program ceils it (`Stage.BlockerNamesTheRefusalIff`, `Stage.ClaimPassesIff`).
- `app/src/lib/nox.ts:975-977` says the mandate check is the program's arithmetic. It is, except that
  a conversion rate of zero or less is measured as nothing instead of refused
  (`Mandates.ClientMirrorsProgram`, `Mandates.PermittedWithoutARate`).
- `app/src/pages/NoxMarket.tsx:1619` says switching the stop's mode never moves it. From a distance to
  a price it does not (`Decimals.CarriedStopIsUnmoved`); from a price to a distance it does unless the
  stop is a whole number of basis points away (`Desk.StopThroughBps`).
- `clients/js/src/errors.ts:89-90` says the innermost message wins. The last one in the visit wins. Nothing
  inside the object reported has a message of its own exactly when no object leads back to one visited
  before it (`Innermost.InnermostReportedIff`); the message is the deepest exactly when depth never falls
  along the visit (`Innermost.DeepestReportedIff`), which a plan that fails twice does not satisfy
  (`Innermost.DeepestIsNotAlwaysReported`).
- `clients/js/src/margin.ts:85` says a liquidation price of 1 means already past liquidation. For a long
  it means the opposite; for a short it is exact except at price 1 itself (`Margin.ClampedBoundary`).
- `clients/js/src/pricing.ts:121-122` says a round trip at one price is strictly loss-making. It is
  exactly when some leg has a spread and, in USDC, the rate is usable (`Pricing.RoundTripLoses`).
- `app/src/components/OrderTicket.tsx:117-118` says a quote is missing only past the spread's ceiling. It
  is also missing without a positive oracle price, and for a sale at a price of one unit
  (`Pricing.QuoteIsGivenIff`).
- `app/src/lib/triggers.ts:213-214` says an order records nothing of its position. It now carries the
  slot the position opened in (`programs/solfx-core/src/state/trigger_order.rs:91-122`), which the
  program checks; the client still tells orders apart by seconds, and misses one
  (`Triggers.FlaggedIff`, `Triggers.InheritedWithinASecond`).
- `app/src/lib/history.ts:98-103` promises a map over the items. An undefined item also stops the
  worker that meets it, so later items can go unfetched (`WorkerPool.FinishedPool`,
  `WorkerPool.UndefinedItemsStarve`); the history page never passes one.
- `clients/js/src/lp.ts:71-77` says a pool comes to have AUM and no shares when every provider exits while
  it holds retained fees. The last exit takes everything (`LpPool.RedeemedValue`). Such a pool is reached
  when a trade settles after that exit (`LpPool.StrandedPoolIsReachable`), since settling
  (`programs/solfx-core/src/instructions/trader/mod.rs:151-152`) does not look at the shares. That breaks
  invariant I8 (`programs/solfx-core/src/state/lp_pool.rs:24`), and nothing else breaks that half of it
  (`LpPool.SupplyAndAumVanishTogether`). The next provider can then take the AUM out
  (`LpAccounts.StrandedAumIsCollected`).
- `clients/js/src/sizing.ts:58` refuses a size that rounds to zero. With lots of at least one unit none
  does (`Decimals.LotsConvertExactly`).

## Model

| member | source | states |
|---|---|---|
| `BigInts.TruncatedDivision` | clients/js/src/margin.ts:45-55 | `bigint` division and remainder as the files rely on them: they recompose the dividend, the remainder is smaller than the divisor and takes the dividend's sign |
| `BigInts.FloorDivIsFloor` | app/src/lib/noxdesk.ts:192-196 | the desk's corrected truncation is the floor, for dividends of either sign |
| `BigInts.MulDivFloorSignedIsFloor` | clients/js/src/margin.ts:45-55 | the margin file's correction is the same floor |
| `BigInts.CeilDivIsCeil` | app/src/lib/noxdesk.ts:188-190 | `(n + d - 1) / d` is the ceiling on non-negative dividends |
| `BigInts.MulDivCeilIsCeil` | clients/js/src/pricing.ts:49-53 | quotient plus one on a remainder is the same ceiling, so the three spellings of "round up" agree |
| `LpPool.ProportionsAreTheMost` | clients/js/src/lp.ts:60-99 | shares minted and USDC returned are the most within the mover's proportion, and NAV per share the most the AUM covers |
| `LpPool.FeesAreTheLeast` | clients/js/src/lp.ts:101-126 | each fee is the least that covers its rate, of the gross value or of the floored gain above the mark |
| `LpPool.GainLeavesTheShares` | clients/js/src/lp.ts:114-126 | through three nested roundings the taxed gain leaves at least one unit of the gross value untaxed per share redeemed |
| `LpPool.SafeFees` | clients/js/src/lp.ts:101-126 | at safe rates, the two rounded-up fees on any gross value and any smaller gain are together at most the gross value |
| `LpPool.RedemptionSplits` | clients/js/src/lp.ts:174-195 | payout, performance fee and exit fee sum to the gross value; with a mark of at least par and safe rates the payout is between zero and the gross |
| `LpPool.RedemptionInFigures` | clients/js/src/lp.ts:174-195 | gross value, performance fee and exit fee of a redemption each in terms of shares, AUM, supply, mark and rates; the performance fee is charged on a draining redemption too, the exit fee is not, and it drains exactly when it takes all the shares |
| `LpPool.DegenerateRedemptions` | clients/js/src/lp.ts:88-99 | no shares give nothing, too many give an error, and a pool without shares has no gross value to give |
| `LpPool.EmptyPools` | clients/js/src/lp.ts:60-86 | NAV per share is par without shares; a pool without shares or without AUM mints one for one |
| `LpPool.PayoutNeverNegativeIff` | clients/js/src/lp.ts:174-195 | a pair of 16-bit rates never gives a negative payout, in any pool with a mark of at least par, if and only if it is safe: no exit fee and a performance rate of at most the whole, or, with `k` the whole number of times the exit rate goes into one, a performance rate of at most `1 - 1/k` |
| `LpPool.HalfIsTight` | clients/js/src/lp.ts:174-195 | all pairs of rates within a bound are safe if and only if the bound is at most one half |
| `LpPool.ParIsNeeded` | clients/js/src/lp.ts:174-195 | a pool with no mark and both rates one half, where the payout is negative |
| `LpPool.RedeemedValue` | clients/js/src/lp.ts:88-99 | a redemption is worth at most its share of the pool, all of it for all the shares, and less than all otherwise |
| `LpPool.RedeemStep` | programs/solfx-core/src/instructions/lp.rs:334-480 | a redemption lowers AUM by the previewed gross value less the exit fee, lowers the supply by the shares, charges no exit fee when it drains the pool, and never lowers the high-water mark |
| `LpPool.RedemptionRaisesTheMark` | programs/solfx-core/src/instructions/lp.rs:472-480 | after a redemption the mark is the higher of the old mark and the NAV per share, par without shares |
| `LpPool.DepositStep` | programs/solfx-core/src/instructions/lp.rs:85-132 | a deposit adds its amount and at most its share of new shares, and changes nothing else |
| `LpPool.NavNeverFallsInAStep` | clients/js/src/lp.ts:66-99 | neither a deposit nor a redemption lowers AUM per share, compared by cross-multiplication |
| `LpPool.FlooredNavFollows` | clients/js/src/lp.ts:60-69 | the floored NAV per share keeps the order of AUM per share |
| `LpPool.NavNeverFalls` | clients/js/src/lp.ts:60-105 | over every run of deposits and redemptions while shares exist, AUM per share and the NAV displayed never fall |
| `LpPool.InvariantBreaksIff` | programs/solfx-core/src/instructions/trader/mod.rs:151-152 | deposits and redemptions keep both halves of invariant I8; a settlement breaks one if and only if there are no shares and it is not for nothing, the other if and only if there are shares and it takes the last of the AUM |
| `LpPool.SupplyAndAumVanishTogether` | programs/solfx-core/src/instructions/lp.rs:368-382 | over every run from the empty pool: zero supply means zero AUM throughout if and only if nothing ever settled while there were no shares, and zero AUM means zero supply throughout if and only if no settlement took the last of it while there were some |
| `LpPool.SettlementsAmongShares` | programs/solfx-core/src/instructions/lp.rs:368-382 | if every settlement falls while there are shares, zero supply means zero AUM; if moreover the pool loses on none, supply and AUM are zero together |
| `LpPool.StrandedPoolIsReachable` | clients/js/src/lp.ts:71-77 | from every empty pool, a run to any AUM without shares: a deposit, its redemption while a trade is open, and the trade's settlement |
| `LpPool.MarkNeverBelowPar` | programs/solfx-core/src/instructions/lp.rs:472-480 | over every run from the empty pool the high-water mark stays at least at par, whatever settles |
| `LpPool.RedemptionsNeverOwe` | programs/solfx-core/src/instructions/lp.rs:384-389 | for every empty pool, no run reaches a redemption whose fees exceed its gross value if and only if its rates are safe |
| `LpAccounts.ActBalances` | programs/solfx-core/src/instructions/lp.rs:85-480 | one act of a provider moves no other shares, and every unit of USDC it moves is accounted for |
| `LpAccounts.AccountKeeps` | clients/js/src/lp.ts:78-99 | whatever one provider does, the others' shares, all the USDC and the starting AUM per share are kept |
| `LpAccounts.NoProfitFromMovingLiquidity` | clients/js/src/lp.ts:78-99 | a provider who starts and ends without shares, in a pool where no shares means no AUM, takes out, fees paid to the treasury included, at most what was put in |
| `LpAccounts.FirstDepositTakesAll` | clients/js/src/lp.ts:71-87 | in every pool without shares, depositing and redeeming hands the whole AUM to the provider and the treasury, and with a large enough deposit to the provider alone |
| `LpAccounts.StrandedAumIsCollected` | clients/js/src/lp.ts:71-87 | in every pool with AUM, no shares and room for a deposit, some run takes out more than it puts in |
| `LpAccounts.FullPoolPaysNobody` | clients/js/src/lp.ts:66-69 | in a pool without that room nothing deposited can be redeemed, since its NAV per share no longer fits |
| `LpAccounts.NoRunProfitsIff` | clients/js/src/lp.ts:78-99 | for every pool, no run of one provider profits if and only if no shares means no AUM, or there is no room for a deposit |
| `Reduce.FlooredShare` | clients/js/src/reduce.ts:100-106 | a floored proportion leaves the rest at least its own proportion, and some of it |
| `Reduce.ReductionKeeps` | clients/js/src/reduce.ts:67-112 | accepted exactly for a positive size within the position; collateral and entry notional are split without loss; what survives is at least as well backed per unit and keeps some collateral |
| `Reduce.ReleasedIsTheMost` | clients/js/src/reduce.ts:96-106 | collateral released and notional closed are the most within the closed proportion |
| `Reduce.PercentNeverCloses` | clients/js/src/reduce.ts:115-130 | the preset closes the position if and only if the percentage is at least one hundred, and otherwise asks for exactly the floored share |
| `Reduce.ReductionsConserve` | clients/js/src/reduce.ts:81-112 | over any sequence of reductions releases and remainders sum to the originals, backing per unit never falls, and a full close hands over everything |
| `Reduce.AcceptedSizesArePositive` | clients/js/src/reduce.ts:85-92 | the sizes of an accepted sequence sum to a positive size within the position |
| `Reduce.SplittingNeverReleasesMore` | clients/js/src/reduce.ts:81-112 | at every prefix, no more is released than by one reduction of the same total size |
| `Desk.ConversionIsAdjoint` | app/src/lib/noxdesk.ts:49-76 | a cost converts to at most so many dollars if and only if it is within what those dollars convert back to |
| `Desk.DollarsBuy` | app/src/lib/noxdesk.ts:69-76 | dollars convert down to the most quote units they are worth, and to none at an unusable rate |
| `Desk.LossConvertsAsCost` | app/src/lib/noxdesk.ts:49-67 | a loss of a cost converts to exactly minus what the cost converts to, under any conversion |
| `Desk.PnlToUsdMono` | app/src/lib/noxdesk.ts:60-67 | a larger result never converts to less |
| `Desk.LossStaysLoss` | app/src/lib/noxdesk.ts:60-67 | at a usable rate a result is negative after conversion if and only if it was before |
| `Desk.SizingIsAdjoint` | app/src/lib/noxdesk.ts:318-326 | a size measures within a budget if and only if it is at most the size computed for that budget; without a usable rate both degenerate to zero |
| `Desk.StopDistance` | app/src/lib/noxdesk.ts:199-217 | on both sides the stop is the rounded-up distance away, on the losing side |
| `Desk.NoStopOutOfRange` | app/src/lib/noxdesk.ts:212-213 | outside its range a distance gives no stop |
| `Desk.BpsCoverTheDistance` | app/src/lib/noxdesk.ts:219-224 | a distance measures as the least whole basis points covering it, and zero without two prices |
| `Desk.RiskCoversTheDistance` | app/src/lib/noxdesk.ts:236-251 | risk is the least cost covering the distance for the whole size, on either side, and zero without a size, two prices or a usable rate |
| `Desk.MeasuredStop` | app/src/lib/noxdesk.ts:207-224 | basis points to a stop and back give the same figure exactly when the distance is whole, otherwise more, and from a price of 10,000 units at most one more |
| `Desk.StopIsPositive` | app/src/lib/noxdesk.ts:207-217 | from that price on every distance gives a positive stop |
| `Desk.StopThroughBps` | app/src/pages/NoxMarket.tsx:1616-1625 | switching a typed stop to a distance and back never moves it towards the price, and leaves it in place if and only if it is a whole number of basis points away, short of the price |
| `Desk.RiskIsTheBookedLoss` | app/src/lib/noxdesk.ts:236-251 | the risk measured at a stop is, to the unit, the loss later booked there, for any size and conversion |
| `Desk.PnlFollowsPrice` | app/src/lib/noxdesk.ts:330-347 | a price no worse for the position never books less |
| `Desk.PnlIsTheMost` | app/src/lib/noxdesk.ts:330-347 | the result is at least so many dollars if and only if the move of the whole size covers them, converted up, for gains and losses and every conversion |
| `Desk.LosesIffAgainst` | app/src/lib/noxdesk.ts:330-347 | at a usable rate a position shows a loss exactly when the price moved against it, however little; without one it always shows zero |
| `Desk.PnlAtEntryIsZero` | app/src/lib/noxdesk.ts:337-347 | at the entry price the result is zero |
| `Desk.NothingToShow` | app/src/lib/noxdesk.ts:318-347 | no result without a size and two prices, and no size without a price |
| `Evaluation.RefusedForTheFirstBrokenRule` | app/src/lib/noxdesk.ts:290-316 | a ticket is refused exactly when it breaks a rule stated without rounding, and the reason given is the first rule it breaks |
| `Evaluation.RefusalReportsTheLeastLimit` | app/src/lib/noxdesk.ts:306-314 | the leverage or risk quoted in a refusal is the least limit that would have admitted the ticket |
| `Evaluation.RefusalQuotesTheTicket` | app/src/lib/noxdesk.ts:296-316 | the limits and the direction named in a refusal are the ticket's own |
| `Evaluation.EachPositionIsMarked` | app/src/lib/noxdesk.ts:353-378 | with distinct addresses the map holds each position's own result |
| `Evaluation.MarkedAtItsMarket` | app/src/lib/noxdesk.ts:369-377 | each position is valued at its own market's price and with that market's conversion, or none where none is given |
| `Evaluation.TotalWithoutOne` | app/src/lib/noxdesk.ts:366-380 | taking any one position out lowers the total by that position's own result, and no positions total zero |
| `Evaluation.KeyedByAddress` | app/src/lib/noxdesk.ts:367-378 | the map has exactly the positions' addresses |
| `Evaluation.EstimateEvaluation` | app/src/lib/noxdesk.ts:356-382 | no answer if and only if some position has no positive price; otherwise balance plus every result, floored at zero, with the results by address |
| `Evaluation.OneTicketBounded` | app/src/lib/noxdesk.ts:296-316 | an admitted ticket, at any price not beyond its stop, loses at most its share of the balance |
| `Evaluation.BookBounded` | app/src/lib/noxdesk.ts:299-314 | tickets admitted in turn are at most `maxOpen`, and lose together at most one share each |
| `Evaluation.AdmissionBoundsTheLoss` | app/src/lib/noxdesk.ts:296-382 | whatever was admitted, and wherever the markets are short of the stops, equity keeps all but `maxOpen * maxRiskBps` basis points of the balance |
| `Evaluation.NinetyFivePercentKept` | app/src/lib/nox.ts:713-727 | with the evaluation's own limits that is 95% of the balance |
| `Orders.MovesRatchet` | app/src/lib/noxorders.ts:28-35 | over any run of accepted stop moves on the losing side of one price the result at the stop never falls, and there are fewer moves than units of distance |
| `Orders.TighterIsNearer` | app/src/lib/noxorders.ts:28-35 | on the losing side, tighter is nearer to the price |
| `Orders.EntryWaitsFor` | app/src/lib/noxorders.ts:37-48 | a limit waits for a price at least as good as its trigger, a stop for one at least as bad |
| `Orders.BoundAdmitsTheTrigger` | app/src/lib/noxorders.ts:50-66 | a triggered limit always fills within its bound; a triggered stop exactly while the price has not run past the slippage allowed |
| `Orders.BracketRefusedForTheFirst` | app/src/lib/noxorders.ts:80-104 | a bracket is accepted exactly when trigger, size and stop are given, the stop loses and the target, unless zero, wins; and is refused for the first of these it fails |
| `Orders.AcceptedBracket` | app/src/lib/noxorders.ts:80-104 | in an accepted bracket the stop books exactly its measured risk, a real loss at a usable rate, and the target never a loss |
| `Orders.NextFreeId` | app/src/lib/noxorders.ts:74-78 | the least unused id up to 255, and none only when all are used |
| `Margin.MultiplierByTier` | clients/js/src/margin.ts:24-37 | the table scan gives each tier its multiplier, upper bounds exclusive |
| `Margin.MarginIsTheLeast` | clients/js/src/margin.ts:57-61 | the margin is the least amount covering the tier's multiple of the rounded-up rate |
| `Margin.MarginIsMonotone` | clients/js/src/margin.ts:31-61 | more notional never needs less maintenance margin, through both roundings and across tiers |
| `Margin.BudgetCoversMove` | clients/js/src/margin.ts:99-112 | the budget survives the floored loss of a move exactly up to the floored magnitude |
| `Margin.LiquidationIsGiven` | clients/js/src/margin.ts:96-97 | there is a price exactly with a size and a positive entry, and it is the boundary or 1, whichever is larger |
| `Margin.LiquidationIsTheBoundary` | clients/js/src/margin.ts:73-115 | before the clamp, a positive price is safe by the program's strict test if and only if it has not passed the liquidation price |
| `Margin.ClampedBoundary` | clients/js/src/margin.ts:88-115 | with the clamp the same holds except in exactly one case, a short whose boundary is not positive, at price 1 |
| `Pricing.SkewImpactMono` | clients/js/src/pricing.ts:81-103 | a larger order on one side never has a smaller skew impact, although part of it may help the balance |
| `Pricing.SpreadCoversTheWorsening` | clients/js/src/pricing.ts:81-116 | beyond the base and the rounded-up confidence, the spread is the least number of basis points covering what the order adds to the imbalance between long and short interest, and there is none exactly when that passes 50% |
| `Pricing.QuoteCovers` | clients/js/src/pricing.ts:188-216 | a quote's price is the least distance from the oracle covering its spread, and its notional the least covering size times that price |
| `Pricing.SpreadMono` | clients/js/src/pricing.ts:105-116 | so its spread is no smaller, and a quoted larger order implies a quoted smaller one |
| `Pricing.FillIsAdverse` | clients/js/src/pricing.ts:118-135 | a fill is on the trader's wrong side of the oracle, and at it exactly for a zero spread |
| `Pricing.FillCoversTheSpread` | clients/js/src/pricing.ts:118-135 | and its distance from the oracle is the least that covers the spread |
| `Pricing.QuoteIsGivenIff` | app/src/components/OrderTicket.tsx:117-123 | a quote is given if and only if the oracle price is positive and the spread within its ceiling, except for a sale at an oracle price of one unit with any spread |
| `Pricing.LargerOrderNeverFillsBetter` | clients/js/src/pricing.ts:188-216 | on a fixed book a larger order never gets a better price than a smaller one on its side |
| `Pricing.QuoteIsAdverse` | clients/js/src/pricing.ts:188-216 | a quote is positive, adverse and within the ceiling, whatever the book, confidence and size |
| `Pricing.BuyNeverBelowSell` | clients/js/src/pricing.ts:124-135 | at one oracle price no buy fills below any sell, across books and sizes |
| `Pricing.RoundTripLoses` | clients/js/src/pricing.ts:118-135 | opening and closing at an unchanged oracle price never gains, and shows a loss if and only if some leg has a spread and the conversion a usable rate |
| `Pricing.MinCollateralIsLeast` | clients/js/src/pricing.ts:218-240 | positive collateral passes the leverage ceiling and the initial margin if and only if it is at least the quoted margin |
| `Pricing.LeverageAndMarginCover` | clients/js/src/pricing.ts:147-158 | effective leverage and initial margin are each the least that cover the notional; no leverage without collateral |
| `Pricing.MarginIsPositive` | clients/js/src/pricing.ts:147-158 | no collateral is never accepted, and a positive notional has a positive margin |
| `Pricing.TicketMarginSuffices` | app/src/components/OrderTicket.tsx:103-137 | the larger of the two margins is always the long side's, and is the least collateral with which both directions open |
| `Pricing.NotionalSizingIsAdjoint` | clients/js/src/sizing.ts:72-89 | a size is within the dollars asked for if and only if it is at most the size computed; a refusal means not even one base unit is |
| `Pricing.NotionalSizingRefuses` | clients/js/src/sizing.ts:81-89 | each refusal exactly for its own inputs, in order |
| `Settlement.FlooredShareIsLipschitz` | app/src/lib/nox.ts:685 | a floored share of at most the whole grows, and no faster than what it is a share of |
| `Settlement.CeiledShareIsLipschitz` | app/src/lib/nox.ts:682 | so does a ceiled one |
| `Settlement.CappedFee` | app/src/lib/nox.ts:682-683 | the rounded-up fee reaches the whole profit at a rate of the whole, and not before |
| `Settlement.ProtocolShare` | app/src/lib/nox.ts:678-686 | the protocol's share is the ceiling of its rate, or everything at a rate of the whole; the trader's is the floor of its rate on the rest |
| `Settlement.SplitIsExact` | app/src/lib/nox.ts:662-687 | the shares sum to the final equity; none is negative and the principal comes back on any profit, for a trader's rate of at most the whole; a loss is the investor's alone |
| `Settlement.InvestorKeptWholeIff` | app/src/lib/nox.ts:662-687 | the investor gets the principal back on every profit if and only if the trader's rate is at most the whole or the fee takes the whole profit |
| `Settlement.NetIsMonotone` | app/src/lib/nox.ts:678-684 | the profit net of the capped fee, and the fee, both follow the final equity |
| `Settlement.SplitIsMonotone` | app/src/lib/nox.ts:662-687 | all three shares follow the final equity, so nobody gains from a lower one |
| `Stage.ProfitAgreesWithGoal` | app/src/lib/nox.ts:758-762 | the floored profit shown reaches the target if and only if equity reaches the ceiled goal |
| `Stage.FiguresAreFloored` | app/src/lib/nox.ts:762-770 | profit, drawdown and daily loss are each the most whole basis points reached |
| `Stage.FiguresShown` | app/src/lib/nox.ts:753-761 | the stage, the equity, the target and the ceiled goal shown |
| `Stage.RequirementsInFigures` | app/src/lib/nox.ts:758-780 | each requirement, in products, is what the client computes to check it |
| `Stage.BlockerIsTheFirst` | app/src/lib/nox.ts:781-798 | the blocker is the first requirement not met, and there is none when all are |
| `Stage.ClientDrawdown` | app/src/lib/nox.ts:763-766 | the client's floored drawdown is within the limit exactly while the fall is short of one basis point past it |
| `Stage.AverageHold` | app/src/lib/nox.ts:771-774 | the floored average hold meets its minimum if and only if the seconds held do |
| `Stage.NoBlockerIffComplete` | app/src/lib/nox.ts:753-812 | no blocker is shown exactly when every requirement, as the client reads it, is met |
| `Stage.ProgramDrawdown` | programs/noxfunds/src/state.rs:1179-1193 | the program's ceiled drawdown is within the limit exactly while the fall is |
| `Stage.SameGoal` | programs/noxfunds/src/instructions/evaluation.rs:1029-1071 | client and program compute the same goal and the same cap on one day |
| `Stage.GoalsOf` | programs/noxfunds/src/instructions/evaluation.rs:1029-1071 | for an account of no size too: the client's target is then one unit and the program's nothing |
| `Stage.BlockerNamesTheRefusalIff` | app/src/lib/nox.ts:776-798 | for every evaluation, the blocker names the program's own first refusal if and only if one of the first two requirements fails, or no order is pending and both see the drawdown past its limit, or both see it within, the stage exists, and their goals agree or too little activity refuses it anyway |
| `Stage.ClaimPassesIff` | programs/noxfunds/src/instructions/evaluation.rs:1009-1075 | where their goals agree, the program passes a claim if and only if the client shows no blocker, no order is pending, the stage exists and the drawdown is not a fraction past its limit; where they differ, on an account of no size with less than two units, the client always shows a blocker |
| `Stage.EnabledClaimCanBeRefused` | app/src/lib/nox.ts:776-780 | two evaluations without a blocker whose claim the program refuses, one for a pending order and one for its drawdown |
| `Mandates.SetBitSetsOne` | app/src/lib/nox.ts:381-383 | setting a bit sets it and no other |
| `Mandates.BitsAreBinary` | app/src/lib/nox.ts:374-383 | a bit is the shifted number's parity, and setting it adds its power of two |
| `Mandates.BitmapHolds` | app/src/lib/nox.ts:381-383 | a packed bitmap has exactly the bits of the list |
| `Mandates.BitsDetermine` | app/src/lib/nox.ts:374-383 | bitmaps with the same bits are equal |
| `Mandates.MarketIndices` | app/src/lib/nox.ts:374-379 | the set bits below 128, in increasing order |
| `Mandates.IndicesRoundTrip` | app/src/lib/nox.ts:374-383 | unpacking and packing gives the bitmap back if and only if it has no bit past 127 |
| `Mandates.PermittedIffWithinMandate` | app/src/lib/nox.ts:982-1045 | a trade is permitted exactly when it is within every limit, stated without rounding and on the desk's own measures |
| `Mandates.SizedTicketFits` | app/src/lib/nox.ts:1016-1026 | a ticket sized for an amount within both limits is never refused for its notional, and one base unit more measures above the amount |
| `Mandates.CollateralAgrees` | crates/solfx-math/src/pnl.rs:15-40 | the program's notional in collateral is the client's at a usable rate, and an error at any other |
| `Mandates.ClientMirrorsProgram` | programs/noxfunds/src/instructions/trading.rs:133-248 | the client's refusal is the program's, reason by reason, if and only if the rate is usable or the trade fails a rule checked before it is measured; the verdicts agree in those cases and when the book is over its limit already, and in no other |
| `Mandates.UnmeasuredTradesArePermitted` | app/src/lib/nox.ts:1016-1044 | at an unusable rate the client permits every trade that comes to be measured, however large, in a mandate within its book limit, and the program refuses it |
| `Mandates.PermittedWithoutARate` | app/src/lib/nox.ts:1016-1044 | such a trade: a million units at a rate of zero, in a mandate limited to one dollar |
| `Digits.ToStringReads` | app/src/lib/format.ts:15-19 | a printed number is all digits and reads back as itself |
| `Digits.PaddedDigits` | app/src/lib/format.ts:15-18 | a fraction padded to the scale has exactly the scale's digits and the same value |
| `Digits.CutAndPad` | app/src/lib/noxdesk.ts:266-267 | cutting digits and padding them back with zeros drops exactly the remainder at that place |
| `Decimals.GroupingIsUndone` | app/src/lib/format.ts:19 | removing the commas undoes the grouping |
| `Decimals.DecimalReads` | app/src/lib/nox.ts:364-372 | the texts the price and money parsers take, and the number each is read as |
| `Decimals.CommaEveryThreeDigits` | app/src/lib/format.ts:19 | counted from the right, every fourth character of a grouped number is a comma, and no other |
| `Decimals.PrintedText` | app/src/lib/format.ts:10-21 | a printed number starts and ends with digits and, commas removed, is the plain decimal of its parts |
| `Decimals.PlainDecimalReads` | app/src/lib/noxdesk.ts:263-269 | the plain decimal parses to the value less its remainder at the last place |
| `Decimals.PrintThenParse` | app/src/lib/format.ts:10-21 | for every number and every number of places, parsing the printed text gives the value less its remainder at the last place shown, and nothing for what is then zero or was negative |
| `Decimals.NegativeIsRefused` | app/src/lib/noxdesk.ts:263-265 | no text starting with a minus sign parses |
| `Decimals.NegativePrints` | app/src/lib/format.ts:10-21 | a negative number prints as its absolute value after a minus sign |
| `Decimals.FullPrecisionRoundTrips` | app/src/lib/nox.ts:364-372 | a positive price printed to nine places and a positive amount printed to six parse back unchanged |
| `Decimals.CarriedStopIsUnmoved` | app/src/pages/NoxMarket.tsx:1618-1622 | a stop carried from the distance mode, printed to nine places without commas, parses back unchanged |
| `Decimals.UngroupedParses` | app/src/pages/NoxMarket.tsx:1620-1621 | the printed text without commas parses as the grouped text does |
| `Decimals.SizeParserAgrees` | clients/js/src/sizing.ts:25-49 | on texts without commas the money grammar accepts exactly what the size parser does, to the same value, except a bare leading or trailing dot |
| `Decimals.SizeRefusals` | clients/js/src/sizing.ts:25-42 | blank, signed, not decimal and too fine, each exactly for its texts |
| `Decimals.SizeValue` | clients/js/src/sizing.ts:44-48 | every other text is the number its two parts spell, an empty part spelling nothing, and refused only as zero |
| `Decimals.BareLeadingDot` | clients/js/src/sizing.ts:29-45 | a bare leading dot reads as a zero before it |
| `Decimals.BareTrailingDot` | clients/js/src/sizing.ts:29-45 | a bare trailing dot reads as a whole number |
| `Decimals.CommaIsRefused` | clients/js/src/sizing.ts:34-37 | a text with a comma is refused |
| `Decimals.LotsConvertExactly` | clients/js/src/sizing.ts:51-60 | for a lot of at least one unit the conversion is exact and never refused for rounding to zero |
| `WorkerPool.CalledBelowIs` | app/src/lib/history.ts:113-119 | the calls for a counter value are those for the defined items below it, once each, in order |
| `WorkerPool.StepKeepsInv` | app/src/lib/history.ts:110-120 | every step of every worker keeps the counter, the calls, the workers and the output in agreement |
| `WorkerPool.StepsMakeProgress` | app/src/lib/history.ts:114-119 | every step lowers what is left to do |
| `WorkerPool.EveryRunIsSafe` | app/src/lib/history.ts:98-124 | in every state of every interleaving each defined item below the counter has been called for exactly once, at most `limit` calls are in flight and for different items, no slot holds another item's result, and the run is bounded |
| `WorkerPool.UnfinishedGoesOn` | app/src/lib/history.ts:122 | a run that cannot go on is one in which every worker has returned or failed |
| `WorkerPool.FailureIsOfAProcessedItem` | app/src/lib/history.ts:118-122 | at any moment of a run, a worker that failed did so on the call for a processed item |
| `WorkerPool.FinishedPool` | app/src/lib/history.ts:98-124 | when all workers are done some call has failed if and only if a processed item's call rejects; otherwise each slot holds its own item's result exactly when the item was processed, whatever the schedule |
| `WorkerPool.EverythingProcessed` | app/src/lib/history.ts:112-118 | with a positive limit and no undefined item every item is processed |
| `WorkerPool.ProcessedIff` | app/src/lib/history.ts:111-119 | an item is processed exactly when it is defined and fewer undefined items come before it than workers are started |
| `WorkerPool.UndefinedItemsStarve` | app/src/lib/history.ts:117 | two undefined items stop a pool of two before it reaches the third |
| `WorkerPool.Pool.constructor` | app/src/lib/history.ts:109-112 | the shared state starts empty, with as many workers as the limit and the items allow |
| `WorkerPool.Pool.Claim` | app/src/lib/history.ts:115-117 | the statements between two awaits are the claiming step |
| `WorkerPool.Pool.Settle` | app/src/lib/history.ts:118 | the statements after the await are the settling step |
| `WorkerPool.MapWithConcurrency` | app/src/lib/history.ts:104-124 | under any scheduler its promise settles: it rejects as soon as a call has, and if and only if a processed item's call rejects, and otherwise pairs every processed item with its own result |
| `History.RowsCarryTheirSignature` | app/src/lib/history.ts:180-228 | rows carry the signature of the transaction they were decoded from |
| `History.EveryRowIsItsOwn` | app/src/lib/history.ts:144-229 | every row comes from a successful transaction's own events, under that transaction's signature |
| `History.EveryEventOnce` | app/src/lib/history.ts:174-228 | a transaction's rows are its openings, decreases and liquidations, each exactly once, whatever their order in the logs |
| `History.RowsAreTheEvents` | app/src/lib/history.ts:140-229 | the rows of the page are the reportable events of every successful transaction read, none lost and none doubled |
| `History.OwnClockFirst` | app/src/lib/history.ts:176-183 | a row's time is the event's own, else the block's, else zero |
| `History.KindsInOrder` | app/src/lib/history.ts:180-228 | within a transaction openings come before decreases and decreases before liquidations |
| `History.ListsGrow` | app/src/lib/history.ts:180-228 | and rows of one kind keep the order of their events |
| `History.WantedInOrder` | app/src/lib/history.ts:144 | the successful transactions keep their order |
| `History.TransactionsInOrder` | app/src/lib/history.ts:168-229 | and so do their rows |
| `History.OneTransaction` | app/src/lib/history.ts:168-174 | a failed transaction, or one that could not be read, leaves no rows |
| `History.SortingIsStable` | app/src/lib/history.ts:231 | sorting rearranges, puts the newest first and keeps rows of one moment in order |
| `History.SortedOrderIsUnique` | app/src/lib/history.ts:231 | which fixes the result, whatever stable algorithm runs |
| `History.TotalsIgnoreOrder` | app/src/lib/history.ts:233-248 | the totals depend on which rows there are, not on their order |
| `History.TotalsWithoutOne` | app/src/lib/history.ts:240-248 | taking any one row out lowers the totals by its own result, fee and floored notional, a close, and a win or a loss by the sign of its result |
| `History.ClosesWinsAndLosses` | app/src/lib/history.ts:243-247 | closes, wins and losses are the numbers of rows with a result, a positive one and a negative one |
| `History.WinsAndLossesAreCloses` | app/src/lib/history.ts:243-247 | wins and losses are disjoint parts of the closes |
| `History.AddUp` | app/src/lib/history.ts:233-248 | the loop adds up exactly the rows' contributions |
| `History.FilterWanted` | app/src/lib/history.ts:142-144 | the successful transactions, in order |
| `History.BuildRows` | app/src/lib/history.ts:168-229 | given each result at its own index, rows are each transaction's own, in order |
| `History.LoadHistory` | app/src/lib/history.ts:126-263 | however the fetches interleave, the page is each successful transaction's own events under its own signature, none lost or doubled, newest first, with totals over exactly those rows |
| `SendErrors.PreorderSplits` | clients/js/src/errors.ts:101-110 | visiting a list is visiting its front and then its back with more already seen |
| `SendErrors.PreorderOfOne` | clients/js/src/errors.ts:97-111 | an unseen object is visited before its children, and nothing else is visited for it |
| `SendErrors.FollowedKeys` | clients/js/src/errors.ts:29-41 | the ten keys followed, in order, and all elements of an array |
| `SendErrors.CollectedMessage` | clients/js/src/errors.ts:108 | an object's message is taken as it stands, exactly when it is text with something other than spaces in it |
| `SendErrors.CollectedLogs` | clients/js/src/errors.ts:50-52 | logs are taken exactly when they are an array of nothing but text |
| `SendErrors.FirstLogsAre` | clients/js/src/errors.ts:107 | the logs kept are those of the first object visited that has any |
| `SendErrors.FirstMatchIs` | clients/js/src/errors.ts:78-81 | the code and the message are each from the first line that gives one |
| `SendErrors.VisitedOnce` | clients/js/src/errors.ts:97-99 | every object is visited at most once, and none seen before |
| `SendErrors.VisitedIsReachable` | clients/js/src/errors.ts:97-111 | whatever is visited is reachable through array elements and the descended keys |
| `SendErrors.VisitsExactlyTheReachable` | clients/js/src/errors.ts:97-113 | the visit contains exactly the reachable objects, on every finite heap, cyclic or not |
| `SendErrors.VisitFrom` | clients/js/src/errors.ts:97-113 | from any point on, the visit is that of the object there and of a list still to do |
| `SendErrors.LastMessageIsItsSpeakers` | clients/js/src/errors.ts:107-118 | the last message collected is that of the last object visited that has one |
| `SendErrors.Walk.Enter` | clients/js/src/errors.ts:98-108 | entering an object marks it, and takes its logs if there are none yet and its message if it is not blank |
| `SendErrors.Walk.Visit` | clients/js/src/errors.ts:97-111 | the recursive walk terminates, and leaves exactly what the order of the visit says: objects seen, messages in order, first logs |
| `SendErrors.AnchorMessage` | clients/js/src/errors.ts:74-84 | from the first code and the first message in the lines: the message, with the code in parentheses after it if there is one; the code alone as a refusal; nothing without either |
| `SendErrors.DiagnoseSendError` | clients/js/src/errors.ts:92-120 | the logs are the first in the visit; the message is that sentence from them, else that of the last object with one, else the fallback |
| `SendErrors.WrapperSpeaksOnlyAlone` | clients/js/src/errors.ts:86-91 | the thrown object's own message is the last one if and only if it has one and no other reachable object does |
| `SendErrors.NothingDeeperSpeaks` | clients/js/src/errors.ts:86-91 | no other object with a message is reachable from the one reported, except through objects visited before it |
| `Innermost.UnbeatenIff` | clients/js/src/errors.ts:86-91 | for any way one object can beat another: the object reported is beaten by none with a message, whoever in the structure has one, if and only if no object is beaten by one visited before it |
| `Innermost.InnermostReportedIff` | clients/js/src/errors.ts:86-91 | the innermost message wins, in that nothing the reported object leads to has one, whoever in the structure has one, if and only if no object leads back to one visited before it |
| `Innermost.DeepestReportedIff` | clients/js/src/errors.ts:86-91 | the deepest message wins, by any measure of depth and whoever in the structure has one, if and only if depth never falls from one object to another visited later |
| `Innermost.DeepestIsNotAlwaysReported` | clients/js/src/errors.ts:86-91 | of every failed plan of two parts, the first error having a cause of its own, the second error is reported and not that deeper cause |
| `Innermost.DepthOfFailures` | clients/js/src/errors.ts:11-24 | in such a plan every link leads exactly one level down |
| `Innermost.FailedTwice` | clients/js/src/errors.ts:11-24 | a thrown wrapper with a result tree of two failed plans is one |
| `Triggers.PlaceableIsNotYetMet` | app/src/lib/triggers.ts:61-82 | a trigger is placeable exactly when the program does not consider it met; the required side says the same; for the opposite direction it is then met already |
| `Triggers.ReasonIs` | app/src/lib/triggers.ts:297-319 | orphaned exactly without an account or with one of size zero, predating exactly under an account opened later, and neither otherwise |
| `Triggers.StepKeepsInv` | programs/solfx-core/src/instructions/trader/trigger.rs:98-164 | every step keeps stamps and generations in step: an order of the living position is no older than it, any other no newer |
| `Triggers.RunsKeepInv` | app/src/lib/triggers.ts:205-226 | so does every run |
| `Triggers.FlaggedIff` | app/src/lib/triggers.ts:308-332 | in every state of every run an order of the living position is never flagged; another one is, unless it was created in the very second the living position opened |
| `Triggers.StepKeepsExact` | app/src/lib/triggers.ts:311-319 | while the flags are right, every step but an opening keeps them right, and an opening does if and only if no order waiting there carries the present second |
| `Triggers.StrictOpeningsAreExact` | app/src/lib/triggers.ts:205-226 | if every opening is stamped later than the orders waiting for it, an order is flagged exactly when it is not the living position's |
| `Triggers.OpeningIsExactIff` | app/src/lib/triggers.ts:311-319 | the first opening that shares its second with a waiting order makes the flags wrong, and no other does |
| `Triggers.InheritedWithinASecond` | app/src/lib/triggers.ts:312-313 | a run in which a short's take-profit is taken for the long that replaced it |
| `Triggers.FirstFreeNonce` | app/src/lib/trade.ts:67-93 | the lowest nonce below the limit without an account, and none only when all have one |
| `Triggers.ClosedAddressIsNext` | app/src/lib/triggers.ts:210-215 | closing a position whose lower nonces are taken makes its address the next one chosen |
| `Triggers.LoadStaleTriggers` | app/src/lib/triggers.ts:285-334 | through the deduplicated addresses and the map of living positions, the flags of all orders, in order |
| `Triggers.StaleListIs` | app/src/lib/triggers.ts:308-333 | an order is in the list exactly when it has a reason, and with that reason |
| `Triggers.StaleListSplits` | app/src/lib/triggers.ts:308-333 | orders are listed where they stand |
| `Triggers.StaleListOfOne` | app/src/lib/triggers.ts:308-333 | and once each |
| `Triggers.DrawnInOrder` | app/src/hooks/useTriggers.ts:50-65 | the chart keeps the order of what it draws |
| `Triggers.DrawnAreTheRest` | app/src/hooks/useTriggers.ts:50-65 | for a living position the chart draws exactly the orders that are not flagged |

## Left out

- RPC reads, instruction builders, address derivation, generated decoders and React components: calls into code with no visible semantics; the decoded values are inputs here.
- Overflow: outside `LpPool`, where `toU64` and the program's checked additions are modelled, values are unbounded; the program's `u64` and `u128` errors in `CheckRules` and `ClaimRefusal` are not modelled.
- Fractional or non-finite JavaScript numbers: basis points are integers (the source answers zero for a fractional stop distance and the model does not take one); percentages are reals, so `NaN` is not covered.
- LpPool.Apply: pausing, withdrawal requests and their cooldown, the minimum-out bounds and the vault's token balance are not modelled; each only refuses more. A settlement is its effect on AUM; the trade behind it is not modelled.
- LpPool.RedemptionsNeverOwe: the fee rates are fixed over a run; no instruction of the program changes them.
- LpAccounts.NoRunProfitsIff: a performance rate above the whole, which the program does not refuse, is excluded; `NoProfitFromMovingLiquidity` holds at any rate.
- Triggers.Apply: whether the oracle has met a trigger, the minimum hold and the market's status are not modelled, so runs include more than the program allows; a generation number stands for the opening slot. Liquidation is a `Close`.
- WorkerPool.MapWithConcurrency: calls settle with a value determined by their item. What the other workers do after a rejection is covered by `EveryRunIsSafe`, not by the method, which has returned.
- History.LoadHistory: decoding a transaction's log lines into events is the parameter `fetch`; a decoder that throws is not modelled.
- Refusals: sentences shown to a person are constructors here; the figures printed inside those of `ruleRefusal`, `evalProgress` and the size parser are not modelled.
- SendErrors.AnchorMessage: what the two regular expressions read from a line is a pair of parameters.
- SendErrors.Walk.Visit: a getter on a thrown object that itself throws or changes the object is not modelled.
- Evaluation.AdmissionBoundsTheLoss: entry is at the judged price and rates are fixed; the opening spread, fees and carry come on top.
- Margin.LiquidationIsTheBoundary: for markets quoted in USD, as the source says; elsewhere the rate moves the boundary.
- `composeSynthetic`, `marketQuote`, `nextSeq`, `confBps`, `previewDeposit`, `pnlOnClosedPortion`, `holdLeftSecs`, `priceLimitFor`, `carry.ts`, `adl.ts`, `contracts.ts`: would only add easy members.
- Floating-point display, charts, globe geometry, layout and local storage: no money arithmetic.
- The deployment and comparison scripts: text and git plumbing.
