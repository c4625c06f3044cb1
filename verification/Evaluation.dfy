/**
 Judging tickets and marking the book (`evalTicketRefusal` and `estimateEvaluation` of
 `app/src/lib/noxdesk.ts`), and what the first guarantees about the second.
 */
module Evaluation {
  import opened BigInts
  import opened Results
  import opened Units
  import opened Desk

  /** The evaluation's fixed rules that bound a book. */
  const MAX_OPEN: nat := 5
  const MAX_RISK_BPS: nat := 100

  datatype Ticket = Ticket(
    direction: Direction,
    price: int,
    stale: bool,
    sizeBase: int,
    notional: int,
    stop: int,
    balance: int,
    maxLeverage: nat,
    openPositions: nat,
    maxOpen: nat,
    maxRiskBps: nat,
    conversion: Conversion)

  datatype Refusal =
    | WaitingForPrice
    | StalePrice
    | BookFull(maxOpen: nat)
    | NoNotional
    | NoStop
    | StopOnWrongSide(direction: Direction)
    | BalanceExhausted
    | OverLeverage(leverage: int, maxLeverage: nat)
    | OverRisk(riskBps: Option<int>, maxRiskBps: nat)

  function EvalTicketRefusal(t: Ticket): Option<Refusal> {
    if t.price <= 0 then Some(WaitingForPrice)
    else if t.stale then Some(StalePrice)
    else if t.openPositions >= t.maxOpen then Some(BookFull(t.maxOpen))
    else if t.sizeBase <= 0 || t.notional <= 0 then Some(NoNotional)
    else if t.stop <= 0 then Some(NoStop)
    else if !StopOnLosingSide(t.direction, t.price, t.stop) then Some(StopOnWrongSide(t.direction))
    else if t.balance <= 0 then Some(BalanceExhausted)
    else
      var leverage := CeilDiv(t.notional, t.balance);
      if leverage > t.maxLeverage then Some(OverLeverage(leverage, t.maxLeverage))
      else
        var r := RiskBps(RiskAtStop(t.sizeBase, t.price, t.stop, t.conversion), t.balance);
        if r.None? || r.value > t.maxRiskBps then Some(OverRisk(r, t.maxRiskBps)) else None
  }

  lemma RiskIsNonNegative(sizeBase: int, price: int, stop: int, c: Conversion)
    ensures RiskAtStop(sizeBase, price, stop, c) >= 0
  {
    if sizeBase > 0 && price > 0 && stop > 0 {
      var n := sizeBase * Distance(price, stop);
      MulMono(0, sizeBase, Distance(price, stop));
      CeilDivIsCeil(n, NOTIONAL_DIVISOR);
      CostIsNonNegative(CeilDiv(n, NOTIONAL_DIVISOR), c);
    }
  }

  const RULES: nat := 9

  /** The rules a ticket must meet, in order, as products rather than rounded quotients. */
  predicate Meets(t: Ticket, rule: nat) {
    match rule
    case 0 => t.price > 0
    case 1 => !t.stale
    case 2 => t.openPositions < t.maxOpen
    case 3 => t.sizeBase > 0 && t.notional > 0
    case 4 => t.stop > 0
    case 5 => StopOnLosingSide(t.direction, t.price, t.stop)
    case 6 => t.balance > 0
    case 7 => t.notional <= t.maxLeverage * t.balance
    case _ => RiskAtStop(t.sizeBase, t.price, t.stop, t.conversion) * BPS_PRECISION <= t.maxRiskBps * t.balance
  }

  /** The rule a refusal is about. */
  function RuleOf(r: Refusal): nat {
    match r
    case WaitingForPrice => 0
    case StalePrice => 1
    case BookFull(_) => 2
    case NoNotional => 3
    case NoStop => 4
    case StopOnWrongSide(_) => 5
    case BalanceExhausted => 6
    case OverLeverage(_, _) => 7
    case OverRisk(_, _) => 8
  }

  /**
   A ticket is refused exactly when it breaks a rule, and for the first one it breaks: rounding the
   quotients up refuses nothing more and admits nothing more.
   */
  lemma RefusedForTheFirstBrokenRule(t: Ticket)
    ensures var r := EvalTicketRefusal(t);
      if r.None? then forall k: nat :: k < RULES ==> Meets(t, k)
      else !Meets(t, RuleOf(r.value)) && forall k: nat :: k < RuleOf(r.value) ==> Meets(t, k)
  {
    var risk := RiskAtStop(t.sizeBase, t.price, t.stop, t.conversion);
    RiskIsNonNegative(t.sizeBase, t.price, t.stop, t.conversion);
    if t.balance > 0 && t.notional > 0 {
      CeilDivIsCeil(t.notional, t.balance);
      CeilGalois(t.notional, t.balance, t.maxLeverage);
      CeilDivIsCeil(risk * BPS_PRECISION, t.balance);
      CeilGalois(risk * BPS_PRECISION, t.balance, t.maxRiskBps);
    }
  }

  /** What else a refusal says is the ticket's own. */
  lemma RefusalQuotesTheTicket(t: Ticket)
    ensures EvalTicketRefusal(t).Some? ==>
      match EvalTicketRefusal(t).value
      case BookFull(maxOpen) => maxOpen == t.maxOpen
      case StopOnWrongSide(direction) => direction == t.direction
      case OverLeverage(_, maxLeverage) => maxLeverage == t.maxLeverage
      case OverRisk(_, maxRiskBps) => maxRiskBps == t.maxRiskBps
      case _ => true
  {
  }

  /** The figure in a refusal is the least limit that would have let the ticket through. */
  lemma RefusalReportsTheLeastLimit(t: Ticket, limit: nat)
    ensures EvalTicketRefusal(t).Some? && EvalTicketRefusal(t).value.OverLeverage? ==>
      (EvalTicketRefusal(t).value.leverage <= limit <==> Meets(t.(maxLeverage := limit), 7))
    ensures EvalTicketRefusal(t).Some? && EvalTicketRefusal(t).value.OverRisk? ==>
      && EvalTicketRefusal(t).value.riskBps.Some?
      && (EvalTicketRefusal(t).value.riskBps.value <= limit <==> Meets(t.(maxRiskBps := limit), 8))
  {
    var risk := RiskAtStop(t.sizeBase, t.price, t.stop, t.conversion);
    RiskIsNonNegative(t.sizeBase, t.price, t.stop, t.conversion);
    if t.balance > 0 && t.notional > 0 {
      CeilDivIsCeil(t.notional, t.balance);
      CeilGalois(t.notional, t.balance, limit);
      CeilDivIsCeil(risk * BPS_PRECISION, t.balance);
      CeilGalois(risk * BPS_PRECISION, t.balance, limit);
    }
  }

  // --- marking the book ---------------------------------------------------------------------------

  datatype VirtualPosition = VirtualPosition(
    address: string,
    marketIndex: nat,
    direction: Direction,
    sizeBase: int,
    entryPrice: int)

  datatype Estimate = Estimate(equity: int, pnl: map<string, int>)

  predicate Priced(p: VirtualPosition, prices: map<nat, int>) {
    p.marketIndex in prices && prices[p.marketIndex] > 0
  }

  predicate AllPriced(ps: seq<VirtualPosition>, prices: map<nat, int>) {
    forall i :: 0 <= i < |ps| ==> Priced(ps[i], prices)
  }

  function ConversionOf(p: VirtualPosition, conversions: map<nat, Conversion>): Conversion {
    if p.marketIndex in conversions then conversions[p.marketIndex] else NoConversion
  }

  function Mark(p: VirtualPosition, prices: map<nat, int>, conversions: map<nat, Conversion>): int
    requires Priced(p, prices)
  {
    EstimatePnl(p.direction, p.sizeBase, p.entryPrice, prices[p.marketIndex], ConversionOf(p, conversions))
  }

  function TotalPnl(ps: seq<VirtualPosition>, prices: map<nat, int>, conversions: map<nat, Conversion>): int
    requires AllPriced(ps, prices)
  {
    if ps == [] then 0
    else TotalPnl(ps[..|ps| - 1], prices, conversions) + Mark(ps[|ps| - 1], prices, conversions)
  }

  /** Every position's profit by address; a later position at the same address replaces an earlier. */
  function PnlByAddress(
    ps: seq<VirtualPosition>, prices: map<nat, int>, conversions: map<nat, Conversion>): map<string, int>
    requires AllPriced(ps, prices)
  {
    if ps == [] then map[]
    else PnlByAddress(ps[..|ps| - 1], prices, conversions)[
           ps[|ps| - 1].address := Mark(ps[|ps| - 1], prices, conversions)]
  }

  lemma {:induction false} EachPositionIsMarked(
      ps: seq<VirtualPosition>, prices: map<nat, int>, conversions: map<nat, Conversion>, i: nat)
    requires AllPriced(ps, prices) && i < |ps|
    requires forall j :: i < j < |ps| ==> ps[j].address != ps[i].address
    ensures ps[i].address in PnlByAddress(ps, prices, conversions)
    ensures PnlByAddress(ps, prices, conversions)[ps[i].address] == Mark(ps[i], prices, conversions)
  {
    if i < |ps| - 1 {
      EachPositionIsMarked(ps[..|ps| - 1], prices, conversions, i);
    }
  }

  /** The result of one position at its market's price, converted as the market is, or not at all. */
  lemma MarkedAtItsMarket(p: VirtualPosition, prices: map<nat, int>, conversions: map<nat, Conversion>)
    requires p.marketIndex in prices && prices[p.marketIndex] > 0
    ensures p.marketIndex in conversions ==>
      Mark(p, prices, conversions)
      == EstimatePnl(p.direction, p.sizeBase, p.entryPrice, prices[p.marketIndex], conversions[p.marketIndex])
    ensures p.marketIndex !in conversions ==>
      Mark(p, prices, conversions)
      == EstimatePnl(p.direction, p.sizeBase, p.entryPrice, prices[p.marketIndex], NoConversion)
  {
  }

  /** The book without its position at `i`. */
  function Without(ps: seq<VirtualPosition>, i: nat): seq<VirtualPosition>
    requires i < |ps|
  {
    ps[..i] + ps[i + 1..]
  }

  /** Taking any one position out of the book takes its own result out of the total; no positions total zero. */
  lemma {:induction false} TotalWithoutOne(
      ps: seq<VirtualPosition>, prices: map<nat, int>, conversions: map<nat, Conversion>, i: nat)
    requires AllPriced(ps, prices) && i < |ps|
    ensures TotalPnl([], prices, conversions) == 0
    ensures AllPriced(Without(ps, i), prices)
    ensures TotalPnl(ps, prices, conversions) - TotalPnl(Without(ps, i), prices, conversions)
      == EstimatePnl(
           ps[i].direction, ps[i].sizeBase, ps[i].entryPrice, prices[ps[i].marketIndex],
           if ps[i].marketIndex in conversions then conversions[ps[i].marketIndex] else NoConversion)
  {
    var n := |ps| - 1;
    assert Priced(ps[i], prices);
    if i == n {
      assert Without(ps, i) == ps[..n];
    } else {
      TotalWithoutOne(ps[..n], prices, conversions, i);
      assert Without(ps, i)[..n - 1] == Without(ps[..n], i);
      assert Without(ps, i)[n - 1] == ps[n];
    }
  }

  /** The map is keyed by exactly the positions' addresses. */
  lemma {:induction false} KeyedByAddress(
      ps: seq<VirtualPosition>, prices: map<nat, int>, conversions: map<nat, Conversion>, address: string)
    requires AllPriced(ps, prices)
    ensures address in PnlByAddress(ps, prices, conversions) <==> exists i :: 0 <= i < |ps| && ps[i].address == address
  {
    if ps != [] {
      var n := |ps| - 1;
      KeyedByAddress(ps[..n], prices, conversions, address);
      assert ps == ps[..n] + [ps[n]];
    }
  }

  /**
   Equity marked to the oracle: nothing at all if one position cannot be priced, and otherwise the
   balance plus every position's profit, floored at zero.
   */
  method EstimateEvaluation(
      balance: int, positions: seq<VirtualPosition>,
      prices: map<nat, int>, conversions: map<nat, Conversion>)
    returns (estimate: Option<Estimate>)
    ensures estimate.Some? <==>
      forall i :: 0 <= i < |positions| ==>
        positions[i].marketIndex in prices && prices[positions[i].marketIndex] > 0
    ensures estimate.Some? ==>
      var total := balance + TotalPnl(positions, prices, conversions);
      estimate.value.equity == if total > 0 then total else 0
    ensures estimate.Some? ==> estimate.value.pnl == PnlByAddress(positions, prices, conversions)
  {
    var equity := balance;
    var pnl: map<string, int> := map[];
    for n := 0 to |positions|
      invariant AllPriced(positions[..n], prices)
      invariant equity == balance + TotalPnl(positions[..n], prices, conversions)
      invariant pnl == PnlByAddress(positions[..n], prices, conversions)
    {
      var p := positions[n];
      if p.marketIndex !in prices || prices[p.marketIndex] <= 0 {
        assert !Priced(p, prices);
        return None;
      }
      assert positions[..n + 1][..n] == positions[..n];
      var u := EstimatePnl(p.direction, p.sizeBase, p.entryPrice, prices[p.marketIndex], ConversionOf(p, conversions));
      pnl := pnl[p.address := u];
      equity := equity + u;
    }
    assert positions[..|positions|] == positions;
    return Some(Estimate(if equity > 0 then equity else 0, pnl));
  }

  // --- what admission guarantees -------------------------------------------------------------------

  /** `p` was opened as ticket `t` asked: same market side and size, filled at the judged price. */
  predicate OpenedAs(p: VirtualPosition, t: Ticket, conversions: map<nat, Conversion>) {
    && p.direction == t.direction && p.sizeBase == t.sizeBase && p.entryPrice == t.price
    && ConversionOf(p, conversions) == t.conversion
  }

  /** The tickets were admitted one after another, against one balance and one set of limits. */
  ghost predicate AdmittedInTurn(tickets: seq<Ticket>, balance: int, maxOpen: nat, maxRiskBps: nat) {
    forall i :: 0 <= i < |tickets| ==>
      && tickets[i].balance == balance && tickets[i].openPositions == i
      && tickets[i].maxOpen == maxOpen && tickets[i].maxRiskBps == maxRiskBps
      && EvalTicketRefusal(tickets[i]) == None
  }

  /** Each position is priced, and its market has not gone past the stop it was admitted with. */
  ghost predicate WithinStops(tickets: seq<Ticket>, ps: seq<VirtualPosition>, prices: map<nat, int>)
    requires |tickets| == |ps|
  {
    forall i :: 0 <= i < |ps| ==>
      Priced(ps[i], prices) && NoWorse(ps[i].direction, tickets[i].stop, prices[ps[i].marketIndex])
  }

  lemma OneTicketBounded(t: Ticket, p: VirtualPosition, prices: map<nat, int>, conversions: map<nat, Conversion>)
    requires EvalTicketRefusal(t) == None && OpenedAs(p, t, conversions)
    requires Priced(p, prices) && NoWorse(p.direction, t.stop, prices[p.marketIndex])
    ensures -(t.maxRiskBps * t.balance) <= Mark(p, prices, conversions) * BPS_PRECISION
  {
    RefusedForTheFirstBrokenRule(t);
    assert Meets(t, 5) && Meets(t, 8);
    RiskIsTheBookedLoss(t.direction, t.sizeBase, t.price, t.stop, t.conversion);
    PnlFollowsPrice(t.direction, t.sizeBase, t.price, t.stop, prices[p.marketIndex], t.conversion);
  }

  lemma AddOneShare(n: nat, share: int, total: int, one: int)
    requires -(n * share) <= total * BPS_PRECISION && -share <= one * BPS_PRECISION
    ensures -((n + 1) * share) <= (total + one) * BPS_PRECISION
  {
    assert (n + 1) * share == n * share + share;
  }

  lemma {:induction false} BookBounded(
      tickets: seq<Ticket>, ps: seq<VirtualPosition>, prices: map<nat, int>, conversions: map<nat, Conversion>,
      balance: int, maxOpen: nat, maxRiskBps: nat)
    requires |tickets| == |ps| && AdmittedInTurn(tickets, balance, maxOpen, maxRiskBps)
    requires forall i :: 0 <= i < |ps| ==> OpenedAs(ps[i], tickets[i], conversions)
    requires WithinStops(tickets, ps, prices)
    ensures |ps| <= maxOpen
    ensures -(|ps| * (maxRiskBps * balance)) <= TotalPnl(ps, prices, conversions) * BPS_PRECISION
  {
    if |ps| > 0 {
      var n := |ps| - 1;
      BookBounded(tickets[..n], ps[..n], prices, conversions, balance, maxOpen, maxRiskBps);
      OneTicketBounded(tickets[n], ps[n], prices, conversions);
      AddOneShare(n, maxRiskBps * balance, TotalPnl(ps[..n], prices, conversions), Mark(ps[n], prices, conversions));
    }
  }

  lemma FullBookBounded(n: nat, maxOpen: nat, maxRiskBps: nat, balance: nat, total: int)
    requires n <= maxOpen && -(n * (maxRiskBps * balance)) <= total * BPS_PRECISION
    ensures balance * (BPS_PRECISION - maxOpen * maxRiskBps) <= (balance + total) * BPS_PRECISION
  {
    var share := maxRiskBps * balance;
    MulMono(0, balance, maxRiskBps);
    MulMono(n, maxOpen, share);
    calc {
      balance * (BPS_PRECISION - maxOpen * maxRiskBps);
      balance * BPS_PRECISION - balance * (maxOpen * maxRiskBps);
      { MulAssociates(maxOpen, maxRiskBps, balance); }
      balance * BPS_PRECISION - maxOpen * share;
    }
  }

  /**
   However many tickets the rules admit against one balance, and wherever the markets are short of
   the stops, equity keeps all but `maxOpen * maxRiskBps` basis points of that balance.
   */
  lemma AdmissionBoundsTheLoss(
      tickets: seq<Ticket>, ps: seq<VirtualPosition>, prices: map<nat, int>, conversions: map<nat, Conversion>,
      balance: int, maxOpen: nat, maxRiskBps: nat)
    requires |tickets| == |ps| && balance >= 0 && AdmittedInTurn(tickets, balance, maxOpen, maxRiskBps)
    requires forall i :: 0 <= i < |ps| ==> OpenedAs(ps[i], tickets[i], conversions)
    requires WithinStops(tickets, ps, prices)
    ensures balance * (BPS_PRECISION - maxOpen * maxRiskBps)
         <= (balance + TotalPnl(ps, prices, conversions)) * BPS_PRECISION
  {
    BookBounded(tickets, ps, prices, conversions, balance, maxOpen, maxRiskBps);
    FullBookBounded(|ps|, maxOpen, maxRiskBps, balance, TotalPnl(ps, prices, conversions));
  }

  /** With the evaluation's own limits, an admitted book short of its stops keeps 95% of the balance. */
  lemma NinetyFivePercentKept(
      tickets: seq<Ticket>, ps: seq<VirtualPosition>, prices: map<nat, int>, conversions: map<nat, Conversion>,
      balance: int)
    requires |tickets| == |ps| && balance >= 0 && AdmittedInTurn(tickets, balance, MAX_OPEN, MAX_RISK_BPS)
    requires forall i :: 0 <= i < |ps| ==> OpenedAs(ps[i], tickets[i], conversions)
    requires WithinStops(tickets, ps, prices)
    ensures 95 * balance <= 100 * (balance + TotalPnl(ps, prices, conversions))
  {
    AdmissionBoundsTheLoss(tickets, ps, prices, conversions, balance, MAX_OPEN, MAX_RISK_BPS);
  }
}
