/** The pure rules of `app/src/lib/noxorders.ts`: tighter stops, entry triggers, free order ids. */
module Orders {
  import opened BigInts
  import opened Results
  import opened Units
  import opened Desk

  predicate IsTighter(direction: Direction, current: int, next: int) {
    if direction.Long? then next > current else next < current
  }

  /**
   The stops a position passes through while its market stands at `price`: each one accepted as
   tighter than the last, and every one on the losing side of the price.
   */
  ghost predicate AcceptedMoves(direction: Direction, price: int, stops: seq<int>) {
    && |stops| > 0
    && (forall i :: 0 <= i < |stops| ==> StopOnLosingSide(direction, price, stops[i]))
    && (forall i :: 0 <= i < |stops| - 1 ==> IsTighter(direction, stops[i], stops[i + 1]))
  }

  /**
   Accepted moves ratchet: each takes the stop at least one unit closer, so there are fewer of them
   than units between the first stop and the price, and the result at the stop never gets worse.
   */
  lemma {:induction false} MovesRatchet(
      direction: Direction, price: int, stops: seq<int>, sizeBase: int, entryPrice: int, c: Conversion)
    requires AcceptedMoves(direction, price, stops)
    ensures var last := stops[|stops| - 1];
      && Distance(price, last) + (|stops| - 1) <= Distance(price, stops[0])
      && |stops| - 1 < Distance(price, stops[0])
      && NoWorse(direction, stops[0], last)
      && EstimatePnl(direction, sizeBase, entryPrice, stops[0], c)
           <= EstimatePnl(direction, sizeBase, entryPrice, last, c)
  {
    var n := |stops| - 1;
    if n > 0 {
      MovesRatchet(direction, price, stops[..n], sizeBase, entryPrice, c);
      assert IsTighter(direction, stops[n - 1], stops[n]);
    }
    PnlFollowsPrice(direction, sizeBase, entryPrice, stops[0], stops[n], c);
  }

  /** On the losing side of the price, tighter is nearer to it. */
  lemma TighterIsNearer(direction: Direction, price: int, current: int, next: int)
    requires StopOnLosingSide(direction, price, current) && StopOnLosingSide(direction, price, next)
    ensures IsTighter(direction, current, next) <==> Distance(price, next) < Distance(price, current)
  {
  }

  datatype EntryKind = Limit | Stop

  predicate EntryMet(kind: EntryKind, direction: Direction, trigger: int, price: int) {
    var below := kind.Limit? == direction.Long?;
    if below then price <= trigger else price >= trigger
  }

  /** A limit waits for a price at least as good as its trigger, a stop for one at least as bad. */
  lemma EntryWaitsFor(direction: Direction, trigger: int, price: int)
    ensures EntryMet(Limit, Long, trigger, price) <==> price <= trigger
    ensures EntryMet(Limit, Short, trigger, price) <==> price >= trigger
    ensures EntryMet(Stop, Long, trigger, price) <==> price >= trigger
    ensures EntryMet(Stop, Short, trigger, price) <==> price <= trigger
    ensures EntryMet(Limit, direction, trigger, price) <==> NoWorse(Opposite(direction), trigger, price)
    ensures EntryMet(Stop, direction, trigger, price) <==> NoWorse(direction, trigger, price)
  {
  }

  function Opposite(direction: Direction): Direction {
    if direction.Long? then Short else Long
  }

  /** `slippageBps` is a JavaScript number: truncated, and a negative one counts as zero. */
  function DefaultPriceLimit(kind: EntryKind, direction: Direction, trigger: int, slippageBps: int): int {
    if kind.Limit? then trigger
    else
      var delta := Quot(trigger * (if slippageBps > 0 then slippageBps else 0), 10_000);
      if direction.Long? then trigger + delta else trigger - delta
  }

  /** Whether a fill at `price` respects the bound: a maximum when buying, a minimum when selling. */
  predicate FillWithin(direction: Direction, bound: int, price: int) {
    if direction.Long? then price <= bound else price >= bound
  }

  /**
   A limit that has been reached fills within its bound at once; a stop's bound is at or beyond its
   trigger, so it fills within it exactly while the price has not run more than the slippage past.
   */
  lemma BoundAdmitsTheTrigger(kind: EntryKind, direction: Direction, trigger: int, price: int, slippageBps: int)
    requires trigger > 0 && EntryMet(kind, direction, trigger, price)
    ensures var bound := DefaultPriceLimit(kind, direction, trigger, slippageBps);
      && FillWithin(direction, bound, trigger)
      && (kind.Limit? ==> FillWithin(direction, bound, price))
      && (kind.Stop? ==>
            (FillWithin(direction, bound, price) <==>
             Distance(price, trigger) * 10_000 <= trigger * (if slippageBps > 0 then slippageBps else 0)))
  {
    var bps := if slippageBps > 0 then slippageBps else 0;
    MulMono(0, bps, trigger);
    QuotIsFloor(trigger * bps, 10_000);
    FloorGalois(trigger * bps, 10_000, Distance(price, trigger));
  }

  datatype BracketRefusal = NoTrigger | NoSize | NoStop | StopOnWrongSide | TargetOnWrongSide

  function EntryBracketRefusal(
    direction: Direction, trigger: int, stop: int, takeProfit: int, sizeBase: int): Option<BracketRefusal>
  {
    if trigger <= 0 then Some(NoTrigger)
    else if sizeBase <= 0 then Some(NoSize)
    else if stop <= 0 then Some(NoStop)
    else if (if direction.Long? then stop >= trigger else stop <= trigger) then Some(StopOnWrongSide)
    else if takeProfit != 0 && (if direction.Long? then takeProfit <= trigger else takeProfit >= trigger)
    then Some(TargetOnWrongSide)
    else None
  }

  /** The rules of a bracket in order; a target of zero is none. */
  predicate BracketRule(
    rule: BracketRefusal, direction: Direction, trigger: int, stop: int, takeProfit: int, sizeBase: int)
  {
    match rule
    case NoTrigger => trigger > 0
    case NoSize => sizeBase > 0
    case NoStop => stop > 0
    case StopOnWrongSide => Move(direction, trigger, stop) < 0
    case TargetOnWrongSide => takeProfit == 0 || Move(direction, trigger, takeProfit) > 0
  }

  /** A bracket is accepted exactly when it meets all five, and otherwise refused for the first it does not. */
  lemma BracketRefusedForTheFirst(direction: Direction, trigger: int, stop: int, takeProfit: int, sizeBase: int)
    ensures var rules := [NoTrigger, NoSize, NoStop, StopOnWrongSide, TargetOnWrongSide];
      var r := EntryBracketRefusal(direction, trigger, stop, takeProfit, sizeBase);
      if r.None? then forall i :: 0 <= i < 5 ==> BracketRule(rules[i], direction, trigger, stop, takeProfit, sizeBase)
      else
        exists n :: 0 <= n < 5 && rules[n] == r.value
          && !BracketRule(rules[n], direction, trigger, stop, takeProfit, sizeBase)
          && forall i :: 0 <= i < n ==> BracketRule(rules[i], direction, trigger, stop, takeProfit, sizeBase)
  {
    var rules := [NoTrigger, NoSize, NoStop, StopOnWrongSide, TargetOnWrongSide];
    match EntryBracketRefusal(direction, trigger, stop, takeProfit, sizeBase)
    case None =>
    case Some(NoTrigger) => assert rules[0] == NoTrigger;
    case Some(NoSize) => assert rules[1] == NoSize;
    case Some(NoStop) => assert rules[2] == NoStop;
    case Some(StopOnWrongSide) => assert rules[3] == StopOnWrongSide;
    case Some(TargetOnWrongSide) => assert rules[4] == TargetOnWrongSide;
  }

  /** In an accepted bracket the stop books a loss measured by its risk, and the target no loss. */
  lemma AcceptedBracket(
      direction: Direction, trigger: int, stop: int, takeProfit: int, sizeBase: int, c: Conversion)
    requires EntryBracketRefusal(direction, trigger, stop, takeProfit, sizeBase) == None
    ensures EstimatePnl(direction, sizeBase, trigger, stop, c) == -RiskAtStop(sizeBase, trigger, stop, c)
    ensures Convertible(c) ==> EstimatePnl(direction, sizeBase, trigger, stop, c) < 0
    ensures EstimatePnl(direction, sizeBase, trigger, takeProfit, c) >= 0
  {
    RiskIsTheBookedLoss(direction, sizeBase, trigger, stop, c);
    LosesIffAgainst(direction, sizeBase, trigger, stop, c);
    if takeProfit > 0 {
      LosesIffAgainst(direction, sizeBase, trigger, takeProfit, c);
    }
  }

  /** The lowest id not yet used, scanned from zero. */
  method NextFreeId(used: seq<int>) returns (free: Option<int>)
    ensures free.Some? ==> 0 <= free.value <= 255 && free.value !in used
    ensures free.Some? ==> forall k :: 0 <= k < free.value ==> k in used
    ensures free.None? ==> forall k :: 0 <= k <= 255 ==> k in used
  {
    var id := 0;
    while id <= 255
      invariant 0 <= id <= 256
      invariant forall k :: 0 <= k < id ==> k in used
    {
      if id !in used {
        return Some(id);
      }
      id := id + 1;
    }
    return None;
  }
}
