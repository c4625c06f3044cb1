/**
 Resting orders at reused addresses (`app/src/lib/triggers.ts`, with the chart's filter in
 `app/src/hooks/useTriggers.ts` and the nonce choice in `app/src/lib/trade.ts`).

 A position's address is its market and nonce, and clients take the lowest free nonce, so a new
 position lands where a closed one was, under the orders the closed one left behind. The client
 tells them apart by time stamps. The chain below also numbers the positions, one generation each,
 so that what a stamp says can be compared with whose order it is; the client never sees the number.
 */
module Triggers {
  import opened Results
  import opened Units

  datatype TriggerKind = TakeProfit | StopLoss

  // --- which side a trigger sits on -------------------------------------------------------------------

  predicate FiresWhenSpotRises(kind: TriggerKind, direction: Direction) {
    (kind.TakeProfit? && direction.Long?) || (kind.StopLoss? && direction.Short?)
  }

  predicate IsPlaceable(kind: TriggerKind, direction: Direction, triggerPrice: int, spot: int) {
    if FiresWhenSpotRises(kind, direction) then triggerPrice > spot else triggerPrice < spot
  }

  datatype Side = Above | Below

  function RequiredSide(kind: TriggerKind, direction: Direction): Side {
    if FiresWhenSpotRises(kind, direction) then Above else Below
  }

  /** The program's `is_met`: inclusive, on the oracle price. */
  predicate IsMet(kind: TriggerKind, direction: Direction, triggerPrice: int, price: int) {
    match (kind, direction)
    case (TakeProfit, Long) => price >= triggerPrice
    case (StopLoss, Short) => price >= triggerPrice
    case (TakeProfit, Short) => price <= triggerPrice
    case (StopLoss, Long) => price <= triggerPrice
  }

  function Opposite(direction: Direction): Direction {
    if direction.Long? then Short else Long
  }

  /**
   The client's rule is the program's, and the required side says the same. It also shows what an
   inherited order does: placed for one direction, it is already met for the other at the same spot.
   */
  lemma PlaceableIsNotYetMet(kind: TriggerKind, direction: Direction, triggerPrice: int, spot: int)
    ensures IsPlaceable(kind, direction, triggerPrice, spot) <==> !IsMet(kind, direction, triggerPrice, spot)
    ensures IsPlaceable(kind, direction, triggerPrice, spot) <==>
      match RequiredSide(kind, direction) case Above => triggerPrice > spot case Below => triggerPrice < spot
    ensures IsPlaceable(kind, direction, triggerPrice, spot) ==> IsMet(kind, Opposite(direction), triggerPrice, spot)
  {
    match (kind, direction)
    case (TakeProfit, Long) =>
    case (TakeProfit, Short) =>
    case (StopLoss, Long) =>
    case (StopLoss, Short) =>
  }

  // --- the chain, for one trader ------------------------------------------------------------------------

  datatype Address = Address(marketIndex: nat, nonce: nat)

  datatype Position = Position(openedAt: int, sizeBase: nat, direction: Direction, generation: nat)

  datatype Order = Order(
    position: Address,
    orderId: nat,
    kind: TriggerKind,
    triggerPrice: int,
    sizeBase: nat,
    createdAt: int,
    generation: nat)

  datatype Key = Key(position: Address, orderId: nat)

  datatype Chain = Chain(now: int, openings: nat, positions: map<Address, Position>, orders: map<Key, Order>)

  datatype Step =
    | Open(at: Address, size: nat, direction: Direction)
    | Close(at: Address)
    | Resize(at: Address, size: nat)
    | Place(at: Address, orderId: nat, kind: TriggerKind, triggerPrice: int, size: nat)
    | Cancel(key: Key)
    | Execute(key: Key)
    | Tick(to: int)

  /** Opened and placed accounts are stamped from one clock; closing leaves the orders where they are. */
  function Apply(c: Chain, step: Step): Option<Chain> {
    match step
    case Open(at, size, direction) =>
      if at in c.positions || size == 0 then None
      else Some(c.(positions := c.positions[at := Position(c.now, size, direction, c.openings)],
                   openings := c.openings + 1))
    case Close(at) =>
      if at !in c.positions then None else Some(c.(positions := c.positions - {at}))
    case Resize(at, size) =>
      if at !in c.positions || size == 0 then None
      else Some(c.(positions := c.positions[at := c.positions[at].(sizeBase := size)]))
    case Place(at, orderId, kind, triggerPrice, size) =>
      var key := Key(at, orderId);
      if at !in c.positions || key in c.orders || size == 0 || size > c.positions[at].sizeBase || triggerPrice <= 0
      then None
      else Some(c.(orders := c.orders[
             key := Order(at, orderId, kind, triggerPrice, size, c.now, c.positions[at].generation)]))
    case Cancel(key) =>
      if key !in c.orders then None else Some(c.(orders := c.orders - {key}))
    case Execute(key) =>
      if key !in c.orders || key.position !in c.positions
         || c.orders[key].generation != c.positions[key.position].generation
      then None
      else
        var p, o := c.positions[key.position], c.orders[key];
        var left := if o.sizeBase < p.sizeBase then p.sizeBase - o.sizeBase else 0;
        Some(c.(orders := c.orders - {key},
                positions := if left == 0 then c.positions - {key.position}
                             else c.positions[key.position := p.(sizeBase := left)]))
    case Tick(to) =>
      if to < c.now then None else Some(c.(now := to))
  }

  ghost predicate IsRun(states: seq<Chain>, steps: seq<Step>) {
    && |states| == |steps| + 1
    && states[0].positions == map[] && states[0].orders == map[]
    && forall i :: 0 <= i < |steps| ==> Apply(states[i], steps[i]) == Some(states[i + 1])
  }

  /** The order was placed on the position that lives at its address now. */
  predicate Belongs(c: Chain, o: Order) {
    o.position in c.positions && c.positions[o.position].generation == o.generation
  }

  // --- what the client makes of it ------------------------------------------------------------------------

  datatype Reason = Orphaned | Predates

  /** An account without size is as good as none. */
  function OpenedAt(accounts: map<Address, Position>, at: Address): Option<int> {
    if at in accounts && accounts[at].sizeBase != 0 then Some(accounts[at].openedAt) else None
  }

  function StaleReason(accounts: map<Address, Position>, o: Order): Option<Reason> {
    var openedAt := OpenedAt(accounts, o.position);
    if openedAt.None? then Some(Orphaned)
    else if openedAt.value > o.createdAt then Some(Predates)
    else None
  }

  /**
   The three answers: orphaned without an account or with one of size zero; predating one opened later
   than the order was created; and neither.
   */
  lemma ReasonIs(accounts: map<Address, Position>, o: Order)
    ensures StaleReason(accounts, o) == Some(Orphaned) <==>
            o.position !in accounts || accounts[o.position].sizeBase == 0
    ensures StaleReason(accounts, o) == Some(Predates) <==>
            o.position in accounts && accounts[o.position].sizeBase > 0 && accounts[o.position].openedAt > o.createdAt
    ensures StaleReason(accounts, o) == None <==>
            o.position in accounts && accounts[o.position].sizeBase > 0 && accounts[o.position].openedAt <= o.createdAt
  {
  }

  // --- every run ------------------------------------------------------------------------------------------

  predicate SoundPosition(c: Chain, at: Address)
    requires at in c.positions
  {
    var p := c.positions[at];
    p.sizeBase > 0 && p.openedAt <= c.now && p.generation < c.openings
  }

  /** What an order's stamp and generation have to do with those of whoever lives at its address. */
  predicate SoundOrder(c: Chain, key: Key)
    requires key in c.orders
  {
    var o := c.orders[key];
    && o.position == key.position && o.orderId == key.orderId
    && o.createdAt <= c.now && o.generation < c.openings
    && (key.position in c.positions ==>
          var p := c.positions[key.position];
          if o.generation == p.generation then p.openedAt <= o.createdAt
          else o.generation < p.generation && o.createdAt <= p.openedAt)
  }

  ghost predicate Inv(c: Chain) {
    && (forall at <- c.positions :: SoundPosition(c, at))
    && (forall key <- c.orders :: SoundOrder(c, key))
  }

  lemma StepKeepsInv(c: Chain, step: Step)
    requires Inv(c) && Apply(c, step).Some?
    ensures Inv(Apply(c, step).value)
  {
    var d := Apply(c, step).value;
    forall at <- d.positions ensures SoundPosition(d, at) {
      assert at in c.positions ==> SoundPosition(c, at);
    }
    forall key <- d.orders ensures SoundOrder(d, key) {
      assert key in c.orders ==> SoundOrder(c, key);
      assert key.position in c.positions ==> SoundPosition(c, key.position);
    }
  }

  lemma {:induction false} RunsKeepInv(states: seq<Chain>, steps: seq<Step>)
    requires IsRun(states, steps)
    ensures Inv(states[|steps|])
  {
    if |steps| > 0 {
      var n := |steps| - 1;
      RunsKeepInv(states[..n + 1], steps[..n]);
      assert Apply(states[n], steps[n]) == Some(states[n + 1]);
      StepKeepsInv(states[n], steps[n]);
    }
  }

  /**
   In every state of every run: an order of the living position is never flagged, and one of an
   earlier occupant escapes exactly when it was created in the second the living one was opened.
   */
  lemma FlaggedIff(states: seq<Chain>, steps: seq<Step>, key: Key)
    requires IsRun(states, steps) && key in states[|steps|].orders
    ensures var c := states[|steps|];
      var o := c.orders[key];
      && (Belongs(c, o) ==> StaleReason(c.positions, o) == None)
      && (StaleReason(c.positions, o) != None <==>
            !Belongs(c, o) && !(o.position in c.positions && o.createdAt == c.positions[o.position].openedAt))
      && (StaleReason(c.positions, o) == Some(Orphaned) <==> o.position !in c.positions)
  {
    RunsKeepInv(states, steps);
  }

  /** No order waits at this address that carries the present second. */
  ghost predicate StrictlyLater(c: Chain, at: Address) {
    forall key <- c.orders :: key.position == at ==> c.orders[key].createdAt < c.now
  }

  /** Every opening in the run is stamped later than whatever waits at its address. */
  ghost predicate OpensStrictly(states: seq<Chain>, steps: seq<Step>)
    requires |states| == |steps| + 1
  {
    forall i :: 0 <= i < |steps| && steps[i].Open? ==> StrictlyLater(states[i], steps[i].at)
  }

  /** Flagged exactly when it is not the living position's. */
  predicate RightlyFlagged(c: Chain, o: Order) {
    StaleReason(c.positions, o) != None <==> !Belongs(c, o)
  }

  /** The stamps tell the generations apart. */
  ghost predicate Exact(c: Chain) {
    forall key <- c.orders :: RightlyFlagged(c, c.orders[key])
  }

  lemma StepKeepsExact(c: Chain, step: Step)
    requires Inv(c) && Exact(c) && Apply(c, step).Some?
    ensures step.Open? ==> (Exact(Apply(c, step).value) <==> StrictlyLater(c, step.at))
    ensures !step.Open? ==> Exact(Apply(c, step).value)
  {
    var d := Apply(c, step).value;
    StepKeepsInv(c, step);
    if step.Open? {
      forall key <- d.orders
        ensures RightlyFlagged(d, d.orders[key]) <==> key.position != step.at || d.orders[key].createdAt < c.now
      {
        assert SoundOrder(c, key) && RightlyFlagged(c, c.orders[key]);
      }
    } else {
      forall key <- d.orders ensures RightlyFlagged(d, d.orders[key]) {
        assert SoundOrder(d, key);
        assert key in c.orders ==> SoundOrder(c, key) && RightlyFlagged(c, c.orders[key]);
      }
    }
  }

  /** If every opening is stamped later than the orders waiting for it, the flags are always right. */
  lemma {:induction false} StrictOpeningsAreExact(states: seq<Chain>, steps: seq<Step>)
    requires IsRun(states, steps) && OpensStrictly(states, steps)
    ensures Exact(states[|steps|])
  {
    if |steps| > 0 {
      var n := |steps| - 1;
      StrictOpeningsAreExact(states[..n + 1], steps[..n]);
      RunsKeepInv(states[..n + 1], steps[..n]);
      assert Apply(states[n], steps[n]) == Some(states[n + 1]);
      StepKeepsExact(states[n], steps[n]);
    }
  }

  /**
   And only then: as long as the flags have been right, the first opening that shares its second
   with an order waiting at its address makes them wrong.
   */
  lemma OpeningIsExactIff(states: seq<Chain>, steps: seq<Step>, open: Step)
    requires IsRun(states, steps) && OpensStrictly(states, steps)
    requires open.Open? && Apply(states[|steps|], open).Some?
    ensures Exact(Apply(states[|steps|], open).value) <==> StrictlyLater(states[|steps|], open.at)
  {
    StrictOpeningsAreExact(states, steps);
    RunsKeepInv(states, steps);
    StepKeepsExact(states[|steps|], open);
  }

  /**
   Such a run: a short is held for a minute, gets a take-profit, is closed, and a long takes its
   address, the last three within one second. The minimum hold, which counts from the opening, does
   not stand in the way.
   */
  lemma InheritedWithinASecond()
    ensures exists states: seq<Chain>, steps: seq<Step>, key: Key ::
      && IsRun(states, steps) && key in states[|steps|].orders
      && !Belongs(states[|steps|], states[|steps|].orders[key])
      && StaleReason(states[|steps|].positions, states[|steps|].orders[key]) == None
  {
    var at, key := Address(0, 0), Key(Address(0, 0), 0);
    var order := Order(at, 0, TakeProfit, 2500, 1, 60, 0);
    var steps := [Open(at, 1, Short), Tick(60), Place(at, 0, TakeProfit, 2500, 1), Close(at), Open(at, 1, Long)];
    var s0 := Chain(0, 0, map[], map[]);
    var s1 := s0.(openings := 1, positions := map[at := Position(0, 1, Short, 0)]);
    var s2 := s1.(now := 60);
    var s3 := s2.(orders := map[key := order]);
    var s4 := s3.(positions := map[]);
    var s5 := s4.(openings := 2, positions := map[at := Position(60, 1, Long, 1)]);
    assert s3.positions - {at} == map[];
    var states := [s0, s1, s2, s3, s4, s5];
    assert IsRun(states, steps);
    assert key in states[|steps|].orders;
  }

  // --- why addresses are reused ----------------------------------------------------------------------------

  /** `firstFreeNonce`: the lowest nonce below the limit without an account. */
  method FirstFreeNonce(c: Chain, marketIndex: nat, limit: nat) returns (free: Option<nat>)
    ensures free.Some? ==> free.value < limit && Address(marketIndex, free.value) !in c.positions
    ensures free.Some? ==> forall k: nat :: k < free.value ==> Address(marketIndex, k) in c.positions
    ensures free.None? ==> forall k: nat :: k < limit ==> Address(marketIndex, k) in c.positions
  {
    for nonce := 0 to limit
      invariant forall k: nat :: k < nonce ==> Address(marketIndex, k) in c.positions
    {
      if Address(marketIndex, nonce) !in c.positions {
        return Some(nonce);
      }
    }
    return None;
  }

  /** Closing a position whose lower nonces are taken makes its own address the next one chosen. */
  lemma ClosedAddressIsNext(c: Chain, at: Address, chosen: nat)
    requires at in c.positions && forall k: nat :: k < at.nonce ==> Address(at.marketIndex, k) in c.positions
    requires var d := Apply(c, Close(at)).value;
      && Address(at.marketIndex, chosen) !in d.positions
      && forall k: nat :: k < chosen ==> Address(at.marketIndex, k) in d.positions
    ensures Address(at.marketIndex, chosen) == at
  {
    var d := Apply(c, Close(at)).value;
    assert at !in d.positions;
    assert at == Address(at.marketIndex, at.nonce);
    if chosen < at.nonce {
      assert Address(at.marketIndex, chosen) in c.positions;
    }
  }

  // --- the two readers -------------------------------------------------------------------------------------

  datatype StaleTrigger = StaleTrigger(order: Order, reason: Reason)

  function StaleAmong(orders: seq<Order>, accounts: map<Address, Position>): seq<StaleTrigger> {
    if orders == [] then []
    else
      var n := |orders| - 1;
      var reason := StaleReason(accounts, orders[n]);
      StaleAmong(orders[..n], accounts)
      + (if reason.None? then [] else [StaleTrigger(orders[n], reason.value)])
  }

  /** `loadStaleTriggers`: the positions pointed at, once each; those alive; then the flags, in order. */
  method LoadStaleTriggers(orders: seq<Order>, accounts: map<Address, Position>) returns (out: seq<StaleTrigger>)
    ensures out == StaleAmong(orders, accounts)
  {
    if orders == [] {
      return [];
    }
    var positions: seq<Address> := [];
    for i := 0 to |orders|
      invariant forall k :: 0 <= k < i ==> orders[k].position in positions
    {
      if orders[i].position !in positions {
        positions := positions + [orders[i].position];
      }
    }
    var live: map<Address, int> := map[];
    for i := 0 to |positions|
      invariant forall k :: 0 <= k < i ==> (positions[k] in live <==> OpenedAt(accounts, positions[k]).Some?)
      invariant forall at <- live :: OpenedAt(accounts, at) == Some(live[at])
    {
      var at := positions[i];
      if at in accounts && accounts[at].sizeBase != 0 {
        live := live[at := accounts[at].openedAt];
      }
    }
    out := [];
    for i := 0 to |orders|
      invariant out == StaleAmong(orders[..i], accounts)
    {
      var o := orders[i];
      assert orders[..i + 1][..i] == orders[..i];
      assert o.position in positions;
      var reason :=
        if o.position !in live then Some(Orphaned)
        else if live[o.position] > o.createdAt then Some(Predates)
        else None;
      assert reason == StaleReason(accounts, o);
      if reason.Some? {
        out := out + [StaleTrigger(o, reason.value)];
      }
    }
    assert orders[..|orders|] == orders;
  }

  /** `useTriggers`: the orders drawn for one position. */
  function Drawn(orders: seq<Order>, openedAt: int): seq<Order> {
    if orders == [] then []
    else
      var n := |orders| - 1;
      Drawn(orders[..n], openedAt) + (if orders[n].createdAt >= openedAt then [orders[n]] else [])
  }

  /** An order is flagged for what it is: in the list exactly when it has a reason, and with that one. */
  lemma {:induction false} StaleListIs(orders: seq<Order>, accounts: map<Address, Position>, t: StaleTrigger)
    ensures t in StaleAmong(orders, accounts) <==> t.order in orders && StaleReason(accounts, t.order) == Some(t.reason)
  {
    if orders != [] {
      var n := |orders| - 1;
      StaleListIs(orders[..n], accounts, t);
      assert orders == orders[..n] + [orders[n]];
    }
  }

  /** Each order is judged once and where it stands: the list for two groups is one list after the other. */
  lemma {:induction false} StaleListSplits(a: seq<Order>, b: seq<Order>, accounts: map<Address, Position>)
    ensures StaleAmong(a + b, accounts) == StaleAmong(a, accounts) + StaleAmong(b, accounts)
  {
    if b == [] {
      assert a + b == a;
    } else {
      assert (a + b)[..|a + b| - 1] == a + b[..|b| - 1];
      StaleListSplits(a, b[..|b| - 1], accounts);
    }
  }

  lemma StaleListOfOne(o: Order, accounts: map<Address, Position>)
    ensures StaleAmong([o], accounts)
      == if StaleReason(accounts, o).None? then [] else [StaleTrigger(o, StaleReason(accounts, o).value)]
  {
    assert [o][..0] == [];
  }

  /** And the chart keeps the order of what it draws. */
  lemma {:induction false} DrawnInOrder(a: seq<Order>, b: seq<Order>, openedAt: int)
    ensures Drawn(a + b, openedAt) == Drawn(a, openedAt) + Drawn(b, openedAt)
  {
    if b == [] {
      assert a + b == a;
    } else {
      assert (a + b)[..|a + b| - 1] == a + b[..|b| - 1];
      DrawnInOrder(a, b[..|b| - 1], openedAt);
    }
  }

  /** For a living position the chart draws exactly the orders that are not flagged. */
  lemma {:induction false} DrawnAreTheRest(orders: seq<Order>, accounts: map<Address, Position>, at: Address, o: Order)
    requires at in accounts && accounts[at].sizeBase != 0
    requires forall i :: 0 <= i < |orders| ==> orders[i].position == at
    ensures o in Drawn(orders, accounts[at].openedAt) <==> o in orders && StaleReason(accounts, o) == None
  {
    if orders != [] {
      var n := |orders| - 1;
      DrawnAreTheRest(orders[..n], accounts, at, o);
      assert orders == orders[..n] + [orders[n]];
    }
  }
}
