/**
 A trader's history (`loadHistory` of `app/src/lib/history.ts`): transactions fetched a few at a
 time, their events turned into rows, the rows sorted and totalled.

 Fetching one transaction and decoding its log lines is the parameter `fetch`: `None` for a
 transaction that could not be read, which the source swallows, or that carries no logs.
 */
module History {
  import opened BigInts
  import opened Results
  import opened Units
  import opened WorkerPool

  const HISTORY_CONCURRENCY: int := 8

  datatype Entry = Entry(signature: string, failed: bool, blockTime: Option<int>)

  datatype Event =
    | PositionOpened(ts: int, marketIndex: nat, sizeBase: nat, execPrice: nat, fee: nat)
    | PositionDecreased(ts: int, marketIndex: nat, sizeClosed: nat, execPrice: nat, fee: nat,
                        fullyClosed: bool, realizedPnl: int)
    | PositionLiquidated(ts: int, marketIndex: nat, sizeBase: nat, exitPrice: nat, penalty: nat,
                         residualToOwner: nat, equity: int)
    | OtherEvent

  datatype Kind = Opened | Closed | Reduced | Liquidated

  datatype Row = Row(
    signature: string,
    ts: int,
    kind: Kind,
    marketIndex: nat,
    size: nat,
    price: nat,
    realised: Option<int>,
    fee: nat)

  datatype Totals = Totals(
    realised: int, fees: int, closes: nat, wins: nat, losses: nat, volume: int)
  {
    function Net(): int {
      realised - fees
    }
  }

  datatype Record = Record(rows: seq<Row>, totals: Totals, net: int, truncated: bool)

  // --- rows --------------------------------------------------------------------------------------

  /** The event's own clock, or the block's when the event carries none. */
  function TimeOf(ts: int, entry: Entry): int {
    if ts != 0 then ts else if entry.blockTime.Some? then entry.blockTime.value else 0
  }

  function OpenedRows(entry: Entry, events: seq<Event>): seq<Row> {
    if events == [] then []
    else
      var rest := OpenedRows(entry, events[..|events| - 1]);
      match events[|events| - 1]
      case PositionOpened(ts, market, size, price, fee) =>
        rest + [Row(entry.signature, TimeOf(ts, entry), Opened, market, size, price, None, fee)]
      case _ => rest
  }

  function DecreasedRows(entry: Entry, events: seq<Event>): seq<Row> {
    if events == [] then []
    else
      var rest := DecreasedRows(entry, events[..|events| - 1]);
      match events[|events| - 1]
      case PositionDecreased(ts, market, size, price, fee, fully, pnl) =>
        var kind := if fully then Closed else Reduced;
        rest + [Row(entry.signature, TimeOf(ts, entry), kind, market, size, price, Some(pnl), fee)]
      case _ => rest
  }

  function LiquidatedRows(entry: Entry, events: seq<Event>): seq<Row> {
    if events == [] then []
    else
      var rest := LiquidatedRows(entry, events[..|events| - 1]);
      match events[|events| - 1]
      case PositionLiquidated(ts, market, size, price, penalty, residual, equity) =>
        var realised := Some(residual - equity);
        rest + [Row(entry.signature, TimeOf(ts, entry), Liquidated, market, size, price, realised, penalty)]
      case _ => rest
  }

  /** One transaction's rows: opens, then decreases, then liquidations. */
  function RowsOf(entry: Entry, events: Option<seq<Event>>): seq<Row> {
    if events.None? then []
    else OpenedRows(entry, events.value) + DecreasedRows(entry, events.value) + LiquidatedRows(entry, events.value)
  }

  /** What the history should hold: each transaction's own events under its own signature. */
  function RowsFor(wanted: seq<Entry>, fetch: Entry -> Option<seq<Event>>): seq<Row> {
    if wanted == [] then []
    else
      var n := |wanted| - 1;
      RowsFor(wanted[..n], fetch) + RowsOf(wanted[n], fetch(wanted[n]))
  }

  function Wanted(signatures: seq<Entry>): seq<Entry> {
    if signatures == [] then []
    else
      var n := |signatures| - 1;
      Wanted(signatures[..n]) + (if signatures[n].failed then [] else [signatures[n]])
  }

  lemma {:induction false} RowsCarryTheirSignature(entry: Entry, events: seq<Event>)
    ensures forall r <- OpenedRows(entry, events) :: r.signature == entry.signature
    ensures forall r <- DecreasedRows(entry, events) :: r.signature == entry.signature
    ensures forall r <- LiquidatedRows(entry, events) :: r.signature == entry.signature
  {
    if events != [] {
      RowsCarryTheirSignature(entry, events[..|events| - 1]);
    }
  }

  /** Every row comes from a transaction that succeeded, and carries that transaction's signature. */
  lemma {:induction false} EveryRowIsItsOwn(signatures: seq<Entry>, fetch: Entry -> Option<seq<Event>>, row: Row)
    requires row in RowsFor(Wanted(signatures), fetch)
    ensures exists entry <- signatures ::
      !entry.failed && row.signature == entry.signature && row in RowsOf(entry, fetch(entry))
  {
    var n := |signatures| - 1;
    var last := signatures[n];
    assert last in signatures;
    if !last.failed && row in RowsOf(last, fetch(last)) {
      RowsCarryTheirSignature(last, fetch(last).value);
    } else {
      if !last.failed {
        assert Wanted(signatures)[..|Wanted(signatures)| - 1] == Wanted(signatures[..n]);
      } else {
        assert Wanted(signatures) == Wanted(signatures[..n]);
      }
      EveryRowIsItsOwn(signatures[..n], fetch, row);
    }
  }

  /** The row an event should appear as. */
  function RowOf(entry: Entry, event: Event): Option<Row> {
    match event
    case PositionOpened(ts, market, size, price, fee) =>
      Some(Row(entry.signature, TimeOf(ts, entry), Opened, market, size, price, None, fee))
    case PositionDecreased(ts, market, size, price, fee, fully, pnl) =>
      var kind := if fully then Closed else Reduced;
      Some(Row(entry.signature, TimeOf(ts, entry), kind, market, size, price, Some(pnl), fee))
    case PositionLiquidated(ts, market, size, price, penalty, residual, equity) =>
      Some(Row(entry.signature, TimeOf(ts, entry), Liquidated, market, size, price, Some(residual - equity), penalty))
    case OtherEvent => None
  }

  function ReportedOne(entry: Entry, event: Event): multiset<Row> {
    var row := RowOf(entry, event);
    if row.None? then multiset{} else multiset{row.value}
  }

  /** A row's time is the event's own clock, and only without one the block's, and without that zero. */
  lemma OwnClockFirst(ts: int, entry: Entry)
    ensures ts != 0 ==> TimeOf(ts, entry) == ts
    ensures ts == 0 && entry.blockTime.Some? ==> TimeOf(ts, entry) == entry.blockTime.value
    ensures ts == 0 && entry.blockTime.None? ==> TimeOf(ts, entry) == 0
  {
  }

  /** The rows of a transaction are its reportable events, each exactly once. */
  function Reported(entry: Entry, events: seq<Event>): multiset<Row> {
    if events == [] then multiset{}
    else Reported(entry, events[..|events| - 1]) + ReportedOne(entry, events[|events| - 1])
  }

  lemma OneMoreRow(front: seq<Row>, row: Row, back: seq<Row>)
    ensures multiset(front + [row] + back) == multiset(front + back) + multiset{row}
  {
  }

  /** What an event adds to the list of one kind of row. */
  function Added(entry: Entry, event: Event, ofKind: bool): seq<Row> {
    if ofKind && RowOf(entry, event).Some? then [RowOf(entry, event).value] else []
  }

  /** The last event adds its row to the list of its kind, and to no other. */
  lemma ListsGrow(entry: Entry, events: seq<Event>, last: Event)
    ensures OpenedRows(entry, events + [last])
         == OpenedRows(entry, events) + Added(entry, last, last.PositionOpened?)
    ensures DecreasedRows(entry, events + [last])
         == DecreasedRows(entry, events) + Added(entry, last, last.PositionDecreased?)
    ensures LiquidatedRows(entry, events + [last])
         == LiquidatedRows(entry, events) + Added(entry, last, last.PositionLiquidated?)
  {
    assert (events + [last])[..|events|] == events;
  }

  lemma AddedOnce(entry: Entry, event: Event)
    ensures multiset(Added(entry, event, event.PositionOpened?))
          + multiset(Added(entry, event, event.PositionDecreased?))
          + multiset(Added(entry, event, event.PositionLiquidated?)) == ReportedOne(entry, event)
  {
  }

  lemma PartsAddUp(a: seq<Row>, b: seq<Row>, c: seq<Row>, x: seq<Row>, y: seq<Row>, z: seq<Row>)
    ensures multiset((a + x) + (b + y) + (c + z))
         == multiset(a + b + c) + (multiset(x) + multiset(y) + multiset(z))
  {
    assert multiset((a + x) + (b + y) + (c + z)) == multiset(a + x) + multiset(b + y) + multiset(c + z);
    assert multiset(a + b + c) == multiset(a) + multiset(b) + multiset(c);
  }

  lemma OneMoreEvent(entry: Entry, events: seq<Event>, last: Event)
    ensures multiset(RowsOf(entry, Some(events + [last])))
      == multiset(RowsOf(entry, Some(events))) + ReportedOne(entry, last)
  {
    ListsGrow(entry, events, last);
    AddedOnce(entry, last);
    PartsAddUp(
      OpenedRows(entry, events), DecreasedRows(entry, events), LiquidatedRows(entry, events),
      Added(entry, last, last.PositionOpened?), Added(entry, last, last.PositionDecreased?),
      Added(entry, last, last.PositionLiquidated?));
  }

  lemma {:induction false} EveryEventOnce(entry: Entry, events: seq<Event>)
    ensures multiset(RowsOf(entry, Some(events))) == Reported(entry, events)
  {
    if events == [] {
      assert RowsOf(entry, Some(events)) == [];
    } else {
      var rest, last := events[..|events| - 1], events[|events| - 1];
      assert events == rest + [last];
      calc {
        multiset(RowsOf(entry, Some(events)));
        multiset(RowsOf(entry, Some(rest + [last])));
        { OneMoreEvent(entry, rest, last); }
        multiset(RowsOf(entry, Some(rest))) + ReportedOne(entry, last);
        { EveryEventOnce(entry, rest); }
        Reported(entry, rest) + ReportedOne(entry, last);
      }
    }
  }

  /** Openings come before decreases, and decreases before liquidations. */
  function KindRank(kind: Kind): nat {
    match kind
    case Opened => 0
    case Closed => 1
    case Reduced => 1
    case Liquidated => 2
  }

  lemma {:induction false} KindsOf(entry: Entry, events: seq<Event>)
    ensures forall r <- OpenedRows(entry, events) :: KindRank(r.kind) == 0
    ensures forall r <- DecreasedRows(entry, events) :: KindRank(r.kind) == 1
    ensures forall r <- LiquidatedRows(entry, events) :: KindRank(r.kind) == 2
  {
    if events != [] {
      KindsOf(entry, events[..|events| - 1]);
    }
  }

  lemma KindsInOrder(entry: Entry, events: seq<Event>)
    ensures var rows := RowsOf(entry, Some(events));
      forall i, j :: 0 <= i < j < |rows| ==> KindRank(rows[i].kind) <= KindRank(rows[j].kind)
  {
    KindsOf(entry, events);
    var a, b := OpenedRows(entry, events), DecreasedRows(entry, events);
    var c, rows := LiquidatedRows(entry, events), RowsOf(entry, Some(events));
    forall i | 0 <= i < |rows|
      ensures KindRank(rows[i].kind) == if i < |a| then 0 else if i < |a| + |b| then 1 else 2
    {
      assert rows[i] in (if i < |a| then a else if i < |a| + |b| then b else c);
    }
  }

  /** Transactions keep their order, and a failed one leaves no trace. */
  lemma {:induction false} WantedInOrder(a: seq<Entry>, b: seq<Entry>)
    ensures Wanted(a + b) == Wanted(a) + Wanted(b)
  {
    if b == [] {
      assert a + b == a;
    } else {
      assert (a + b)[..|a + b| - 1] == a + b[..|b| - 1];
      WantedInOrder(a, b[..|b| - 1]);
    }
  }

  lemma {:induction false} TransactionsInOrder(a: seq<Entry>, b: seq<Entry>, fetch: Entry -> Option<seq<Event>>)
    ensures RowsFor(a + b, fetch) == RowsFor(a, fetch) + RowsFor(b, fetch)
  {
    if b == [] {
      assert a + b == a;
    } else {
      var init, last := b[..|b| - 1], b[|b| - 1];
      assert (a + b)[..|a + b| - 1] == a + init && (a + b)[|a + b| - 1] == last;
      TransactionsInOrder(a, init, fetch);
      Reassociate(RowsFor(a, fetch), RowsFor(init, fetch), RowsOf(last, fetch(last)));
    }
  }

  lemma Reassociate(a: seq<Row>, b: seq<Row>, c: seq<Row>)
    ensures (a + b) + c == a + (b + c)
  {
  }

  lemma OneTransaction(entry: Entry, fetch: Entry -> Option<seq<Event>>)
    ensures Wanted([entry]) == if entry.failed then [] else [entry]
    ensures RowsFor([entry], fetch) == RowsOf(entry, fetch(entry))
    ensures RowsOf(entry, None) == []
  {
    assert [entry][..0] == [];
  }

  /** What a page should hold: every reportable event of every transaction that succeeded and was read. */
  function ReportedByAll(signatures: seq<Entry>, fetch: Entry -> Option<seq<Event>>): multiset<Row> {
    if signatures == [] then multiset{}
    else
      var n := |signatures| - 1;
      var last := signatures[n];
      ReportedByAll(signatures[..n], fetch)
      + (if last.failed || fetch(last).None? then multiset{} else Reported(last, fetch(last).value))
  }

  lemma OneMoreTransaction(wanted: seq<Entry>, last: Entry, fetch: Entry -> Option<seq<Event>>)
    ensures multiset(RowsFor(wanted + [last], fetch))
      == multiset(RowsFor(wanted, fetch))
         + (if fetch(last).None? then multiset{} else Reported(last, fetch(last).value))
  {
    assert (wanted + [last])[..|wanted|] == wanted;
    if fetch(last).Some? {
      EveryEventOnce(last, fetch(last).value);
    }
  }

  /** Nothing is lost, and nothing is there twice. */
  lemma {:induction false} RowsAreTheEvents(signatures: seq<Entry>, fetch: Entry -> Option<seq<Event>>)
    ensures multiset(RowsFor(Wanted(signatures), fetch)) == ReportedByAll(signatures, fetch)
  {
    if signatures != [] {
      var n := |signatures| - 1;
      RowsAreTheEvents(signatures[..n], fetch);
      if signatures[n].failed {
        assert Wanted(signatures) == Wanted(signatures[..n]);
      } else {
        OneMoreTransaction(Wanted(signatures[..n]), signatures[n], fetch);
      }
    }
  }

  // --- sorting -------------------------------------------------------------------------------------

  /** Newest first, before everything of its own age: rows are inserted from the back. */
  function Insert(row: Row, sorted: seq<Row>): seq<Row> {
    if sorted == [] then [row]
    else if sorted[0].ts > row.ts then [sorted[0]] + Insert(row, sorted[1..])
    else [row] + sorted
  }

  /** `rows.sort((a, b) => b.ts - a.ts)`, a stable sort. */
  function SortByTime(rows: seq<Row>): seq<Row> {
    if rows == [] then [] else Insert(rows[0], SortByTime(rows[1..]))
  }

  ghost predicate NewestFirst(rows: seq<Row>) {
    forall i, j :: 0 <= i < j < |rows| ==> rows[i].ts >= rows[j].ts
  }

  /** The rows of one moment, in order. */
  function At(rows: seq<Row>, ts: int): seq<Row> {
    if rows == [] then []
    else (if rows[0].ts == ts then [rows[0]] else []) + At(rows[1..], ts)
  }

  lemma {:induction false} NothingAt(rows: seq<Row>, ts: int)
    requires forall r <- rows :: r.ts != ts
    ensures At(rows, ts) == []
  {
    if rows != [] {
      NothingAt(rows[1..], ts);
    }
  }

  lemma {:induction false} InsertRearranges(row: Row, sorted: seq<Row>)
    ensures multiset(Insert(row, sorted)) == multiset(sorted) + multiset{row}
  {
    if sorted != [] {
      assert sorted == [sorted[0]] + sorted[1..];
      if sorted[0].ts > row.ts {
        InsertRearranges(row, sorted[1..]);
      }
    }
  }

  lemma {:induction false} InsertSorts(row: Row, sorted: seq<Row>)
    requires NewestFirst(sorted)
    ensures NewestFirst(Insert(row, sorted))
    ensures var first := Insert(row, sorted)[0];
      first == row || (sorted != [] && first == sorted[0] && row.ts < first.ts)
  {
    if sorted != [] && sorted[0].ts > row.ts {
      InsertSorts(row, sorted[1..]);
    }
  }

  lemma {:induction false} InsertIsStable(row: Row, sorted: seq<Row>, ts: int)
    requires NewestFirst(sorted)
    ensures At(Insert(row, sorted), ts) == (if row.ts == ts then [row] else []) + At(sorted, ts)
  {
    if sorted != [] && sorted[0].ts > row.ts {
      InsertIsStable(row, sorted[1..], ts);
      var all := Insert(row, sorted[1..]);
      assert ([sorted[0]] + all)[1..] == all;
    } else {
      assert ([row] + sorted)[1..] == sorted;
    }
  }

  /**
   Sorting only rearranges, puts the newest first, and keeps rows of the same moment in order; that
   fixes the result, whichever stable algorithm the platform uses.
   */
  lemma {:induction false} SortingIsStable(rows: seq<Row>)
    ensures NewestFirst(SortByTime(rows))
    ensures multiset(SortByTime(rows)) == multiset(rows)
    ensures forall ts :: At(SortByTime(rows), ts) == At(rows, ts)
  {
    if rows != [] {
      SortingIsStable(rows[1..]);
      var sorted := SortByTime(rows[1..]);
      InsertSorts(rows[0], sorted);
      InsertRearranges(rows[0], sorted);
      assert rows == [rows[0]] + rows[1..];
      forall ts
        ensures At(SortByTime(rows), ts) == At(rows, ts)
      {
        InsertIsStable(rows[0], sorted, ts);
      }
    }
  }

  /** Two newest-first arrangements that agree moment by moment are the same. */
  lemma {:induction false} SortedOrderIsUnique(a: seq<Row>, b: seq<Row>)
    requires NewestFirst(a) && NewestFirst(b)
    requires forall ts :: At(a, ts) == At(b, ts)
    ensures a == b
  {
    assert b != [] ==> At(a, b[0].ts) == At(b, b[0].ts);
    if a != [] {
      assert At(a, a[0].ts) == At(b, a[0].ts) != [];
      assert b != [];
      assert At(a, b[0].ts) == At(b, b[0].ts) != [];
      SameNewest(a, b);
      assert a[0] == At(a, a[0].ts)[0] && b[0] == At(b, b[0].ts)[0];
      assert a[0] == b[0];
      forall ts
        ensures At(a[1..], ts) == At(b[1..], ts)
      {
        assert At(a, ts) == At(b, ts);
        var head := if a[0].ts == ts then 1 else 0;
        assert At(a[1..], ts) == At(a, ts)[head..];
        assert At(b[1..], ts) == At(b, ts)[head..];
      }
      SortedOrderIsUnique(a[1..], b[1..]);
      assert a == [a[0]] + a[1..];
      assert b == [b[0]] + b[1..];
    }
  }

  lemma SameNewest(a: seq<Row>, b: seq<Row>)
    requires NewestFirst(a) && NewestFirst(b) && a != [] && b != []
    requires At(b, a[0].ts) != [] && At(a, b[0].ts) != []
    ensures a[0].ts == b[0].ts
  {
    if a[0].ts > b[0].ts {
      NothingAt(b, a[0].ts);
    } else if a[0].ts < b[0].ts {
      NothingAt(a, b[0].ts);
    }
  }

  // --- totals --------------------------------------------------------------------------------------

  const NO_TOTALS: Totals := Totals(0, 0, 0, 0, 0, 0)

  function Plus(a: Totals, b: Totals): Totals {
    Totals(a.realised + b.realised, a.fees + b.fees, a.closes + b.closes, a.wins + b.wins,
           a.losses + b.losses, a.volume + b.volume)
  }

  /** One row's contribution: only a close or a liquidation realises anything. */
  function TotalsOfRow(r: Row): Totals {
    var volume := Quot(r.size * r.price, NOTIONAL_DIVISOR);
    if r.realised.None? then Totals(0, r.fee, 0, 0, 0, volume)
    else
      var p := r.realised.value;
      Totals(p, r.fee, 1, if p > 0 then 1 else 0, if p < 0 then 1 else 0, volume)
  }

  function SumOver(rows: seq<Row>, f: Row -> Totals): Totals {
    if rows == [] then NO_TOTALS else Plus(SumOver(rows[..|rows| - 1], f), f(rows[|rows| - 1]))
  }

  function TotalsOf(rows: seq<Row>): Totals {
    SumOver(rows, TotalsOfRow)
  }

  lemma {:induction false} SumsAdd(a: seq<Row>, b: seq<Row>, f: Row -> Totals)
    ensures SumOver(a + b, f) == Plus(SumOver(a, f), SumOver(b, f))
  {
    if b == [] {
      assert a + b == a;
      PlusNothing(SumOver(a, f));
    } else {
      var init, last := b[..|b| - 1], b[|b| - 1];
      assert (a + b)[..|a + b| - 1] == a + init && (a + b)[|a + b| - 1] == last;
      SumsAdd(a, init, f);
      PlusAssociates(SumOver(a, f), SumOver(init, f), f(last));
    }
  }

  lemma PlusNothing(a: Totals)
    ensures Plus(a, NO_TOTALS) == a
  {
  }

  lemma PlusAssociates(a: Totals, b: Totals, c: Totals)
    ensures Plus(Plus(a, b), c) == Plus(a, Plus(b, c))
  {
  }

  /** Taking one row out of the middle takes its own contribution out of the sum. */
  lemma SumWithout(front: seq<Row>, x: Row, back: seq<Row>, f: Row -> Totals)
    ensures SumOver(front + [x] + back, f) == Plus(SumOver(front + back, f), f(x))
  {
    SumsAdd(front + [x], back, f);
    SumsAdd(front, back, f);
    assert (front + [x])[..|front|] == front;
    assert SumOver(front + [x], f) == Plus(SumOver(front, f), f(x));
  }

  /** Where the last row of one arrangement sits in another. */
  lemma LastRowIn(a: seq<Row>, b: seq<Row>) returns (front: seq<Row>, back: seq<Row>)
    requires a != [] && multiset(a) == multiset(b)
    ensures b == front + [a[|a| - 1]] + back && multiset(a[..|a| - 1]) == multiset(front + back)
  {
    var n := |a| - 1;
    assert a[n] in multiset(b);
    var i :| 0 <= i < |b| && b[i] == a[n];
    front, back := b[..i], b[i + 1..];
    assert b == front + [a[n]] + back;
    assert a == a[..n] + [a[n]];
    OneMoreRow(front, a[n], back);
    assert multiset(front + back) == multiset(b) - multiset{a[n]};
    assert multiset(a[..n]) == multiset(a) - multiset{a[n]};
  }

  lemma {:induction false} SumsIgnoreOrder(a: seq<Row>, b: seq<Row>, f: Row -> Totals)
    requires multiset(a) == multiset(b)
    ensures SumOver(a, f) == SumOver(b, f)
  {
    if a == [] {
      assert |multiset(a)| == |multiset(b)|;
    } else {
      var front, back := LastRowIn(a, b);
      SumsIgnoreOrder(a[..|a| - 1], front + back, f);
      SumWithout(front, a[|a| - 1], back, f);
    }
  }

  /** The totals depend on which rows there are, never on their order. */
  lemma TotalsIgnoreOrder(a: seq<Row>, b: seq<Row>)
    requires multiset(a) == multiset(b)
    ensures TotalsOf(a) == TotalsOf(b)
  {
    SumsIgnoreOrder(a, b, TotalsOfRow);
  }

  /** The rows without the one at `i`. */
  function Without(rows: seq<Row>, i: nat): seq<Row>
    requires i < |rows|
  {
    rows[..i] + rows[i + 1..]
  }

  /**
   What one row adds to the totals, wherever it stands: its result and a close if it has a result, its
   fee, and its floored notional.
   */
  lemma TotalsWithoutOne(rows: seq<Row>, i: nat)
    requires i < |rows|
    ensures var all, rest, r := TotalsOf(rows), TotalsOf(Without(rows, i)), rows[i];
      && all.realised - rest.realised == (if r.realised.Some? then r.realised.value else 0)
      && all.fees - rest.fees == r.fee
      && all.volume - rest.volume == Floor(r.size * r.price, 1_000_000_000_000)
      && all.closes - rest.closes == (if r.realised.Some? then 1 else 0)
      && all.wins - rest.wins == (if r.realised.Some? && r.realised.value > 0 then 1 else 0)
      && all.losses - rest.losses == (if r.realised.Some? && r.realised.value < 0 then 1 else 0)
    ensures TotalsOf([]) == Totals(0, 0, 0, 0, 0, 0)
  {
    assert rows == rows[..i] + [rows[i]] + rows[i + 1..];
    SumWithout(rows[..i], rows[i], rows[i + 1..], TotalsOfRow);
    MulMono(0, rows[i].size, rows[i].price);
    QuotIsFloor(rows[i].size * rows[i].price, NOTIONAL_DIVISOR);
  }

  /** How many rows are such. */
  ghost function Count(rows: seq<Row>, such: Row -> bool): nat {
    |set i | 0 <= i < |rows| && such(rows[i])|
  }

  lemma CountGrows(rows: seq<Row>, last: Row, such: Row -> bool)
    ensures Count(rows + [last], such) == Count(rows, such) + (if such(last) then 1 else 0)
  {
    var before := set i | 0 <= i < |rows| && such(rows[i]);
    var after := set i | 0 <= i < |rows + [last]| && such((rows + [last])[i]);
    assert after == before + (if such(last) then {|rows|} else {});
  }

  /** Closes are the rows with a result, wins those with a positive one, losses those with a negative one. */
  lemma {:induction false} ClosesWinsAndLosses(rows: seq<Row>)
    ensures TotalsOf(rows).closes == Count(rows, (r: Row) => r.realised.Some?)
    ensures TotalsOf(rows).wins == Count(rows, (r: Row) => r.realised.Some? && r.realised.value > 0)
    ensures TotalsOf(rows).losses == Count(rows, (r: Row) => r.realised.Some? && r.realised.value < 0)
  {
    if rows != [] {
      var n := |rows| - 1;
      ClosesWinsAndLosses(rows[..n]);
      assert rows[..n] + [rows[n]] == rows;
      CountGrows(rows[..n], rows[n], (r: Row) => r.realised.Some?);
      CountGrows(rows[..n], rows[n], (r: Row) => r.realised.Some? && r.realised.value > 0);
      CountGrows(rows[..n], rows[n], (r: Row) => r.realised.Some? && r.realised.value < 0);
    }
  }

  /** Every close is a win, a loss or a draw, counted once. */
  lemma {:induction false} WinsAndLossesAreCloses(rows: seq<Row>)
    ensures var t := TotalsOf(rows); t.wins + t.losses <= t.closes <= |rows|
  {
    if rows != [] {
      WinsAndLossesAreCloses(rows[..|rows| - 1]);
    }
  }

  // --- the program ---------------------------------------------------------------------------------

  /** The totals loop. */
  method AddUp(rows: seq<Row>) returns (totals: Totals)
    ensures totals == TotalsOf(rows)
  {
    var realised, fees, closes, wins, losses, volume := 0, 0, 0, 0, 0, 0;
    for i := 0 to |rows|
      invariant Totals(realised, fees, closes, wins, losses, volume) == TotalsOf(rows[..i])
    {
      assert rows[..i + 1][..i] == rows[..i];
      var r := rows[i];
      fees := fees + r.fee;
      volume := volume + Quot(r.size * r.price, NOTIONAL_DIVISOR);
      if r.realised.Some? {
        realised := realised + r.realised.value;
        closes := closes + 1;
        if r.realised.value > 0 {
          wins := wins + 1;
        } else if r.realised.value < 0 {
          losses := losses + 1;
        }
      }
    }
    assert rows[..|rows|] == rows;
    return Totals(realised, fees, closes, wins, losses, volume);
  }

  /** Rows built by index, each result against the signature at its own position. */
  method BuildRows(wanted: seq<Entry>, fetched: seq<Option<Option<seq<Event>>>>, fetch: Entry -> Option<seq<Event>>)
    returns (rows: seq<Row>)
    requires |fetched| == |wanted| && forall i :: 0 <= i < |wanted| ==> fetched[i] == Some(fetch(wanted[i]))
    ensures rows == RowsFor(wanted, fetch)
  {
    rows := [];
    for i := 0 to |wanted|
      invariant rows == RowsFor(wanted[..i], fetch)
    {
      assert wanted[..i + 1][..i] == wanted[..i];
      rows := rows + RowsOf(wanted[i], fetched[i].value);
    }
    assert wanted[..|wanted|] == wanted;
  }

  method FilterWanted(signatures: seq<Entry>) returns (wanted: seq<Entry>)
    ensures wanted == Wanted(signatures)
  {
    wanted := [];
    for i := 0 to |signatures|
      invariant wanted == Wanted(signatures[..i])
    {
      assert signatures[..i + 1][..i] == signatures[..i];
      if !signatures[i].failed {
        wanted := wanted + [signatures[i]];
      }
    }
    assert signatures[..|signatures|] == signatures;
  }

  /**
   The whole page: however the fetches interleave, the history is each successful transaction's own
   events under its own signature, newest first, with totals over exactly those rows.
   */
  method LoadHistory(signatures: seq<Entry>, limit: nat, fetch: Entry -> Option<seq<Event>>)
    returns (record: Record)
    ensures record.rows == SortByTime(RowsFor(Wanted(signatures), fetch))
    ensures NewestFirst(record.rows) && multiset(record.rows) == ReportedByAll(signatures, fetch)
    ensures record.totals == TotalsOf(record.rows)
    ensures record.net == record.totals.realised - record.totals.fees
    ensures record.truncated <==> |signatures| >= limit
  {
    var wanted := FilterWanted(signatures);
    var items := seq(|wanted|, i requires 0 <= i < |wanted| => Some(wanted[i]));
    var fn := (entry: Entry) => Fulfilled(fetch(entry));
    var result := MapWithConcurrency(items, HISTORY_CONCURRENCY, fn);
    forall i | 0 <= i < |items|
      ensures Processed(items, HISTORY_CONCURRENCY, i)
    {
      EverythingProcessed(items, HISTORY_CONCURRENCY, i);
    }
    var unsorted := BuildRows(wanted, result.value, fetch);
    var rows := SortByTime(unsorted);
    SortingIsStable(unsorted);
    RowsAreTheEvents(signatures, fetch);
    var totals := AddUp(rows);
    return Record(rows, totals, totals.Net(), |signatures| >= limit);
  }
}
