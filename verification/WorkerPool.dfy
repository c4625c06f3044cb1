/**
 `mapWithConcurrency` of `app/src/lib/history.ts`: a few asynchronous workers sharing one counter
 and one output array.

 Between two awaits a worker runs alone, so the program is a step system: a ready worker claims the
 next index and starts the call for it, or stops; a busy worker's call settles and it writes the
 result, or fails. The results hold for every interleaving of those steps. An `undefined` item is
 the interesting input: the worker that claims it stops, and the pool is one worker poorer.
 */
module WorkerPool {
  import opened Results

  datatype Settled<R> = Fulfilled(value: R) | Rejected

  datatype Worker = Ready | Busy(index: nat) | Stopped | Failed

  /** `calls` records the indices `fn` was called for, in order; the source keeps no such record. */
  datatype State<R> = State(next: nat, workers: seq<Worker>, out: seq<Option<R>>, calls: seq<nat>)

  datatype Step = Claim(worker: nat) | Settle(worker: nat)

  // --- the steps ---------------------------------------------------------------------------------

  /** How many workers are started: `Math.min(limit, items.length)`, and none for a negative limit. */
  function WorkerCount(limit: int, n: nat): nat {
    if limit < 0 then 0 else if limit < n then limit else n
  }

  function Init<R>(limit: int, n: nat): State<R> {
    State(0, seq(WorkerCount(limit, n), _ => Ready), seq(n, _ => None), [])
  }

  /** A worker that claims index `i` stops there. */
  predicate StopsAt<T>(items: seq<Option<T>>, i: nat) {
    i >= |items| || items[i].None?
  }

  /** Every call in flight is for an item that is there. */
  predicate Sound<T, R>(items: seq<Option<T>>, s: State<R>) {
    && |s.out| == |items|
    && forall w :: 0 <= w < |s.workers| && s.workers[w].Busy? ==> !StopsAt(items, s.workers[w].index)
  }

  predicate Enabled<R>(s: State<R>, step: Step) {
    && step.worker < |s.workers|
    && match step
       case Claim(w) => s.workers[w].Ready?
       case Settle(w) => s.workers[w].Busy?
  }

  function Apply<T, R>(items: seq<Option<T>>, fn: T -> Settled<R>, s: State<R>, step: Step): State<R>
    requires Sound(items, s) && Enabled(s, step)
  {
    match step
    case Claim(w) =>
      if StopsAt(items, s.next)
      then s.(next := s.next + 1, workers := s.workers[w := Stopped])
      else s.(next := s.next + 1, workers := s.workers[w := Busy(s.next)], calls := s.calls + [s.next])
    case Settle(w) =>
      var i := s.workers[w].index;
      match fn(items[i].value)
      case Fulfilled(r) => s.(workers := s.workers[w := Ready], out := s.out[i := Some(r)])
      case Rejected => s.(workers := s.workers[w := Failed])
  }

  /** `Promise.all` has heard from every worker. */
  predicate Finished<R>(s: State<R>) {
    forall w :: 0 <= w < |s.workers| ==> s.workers[w].Stopped? || s.workers[w].Failed?
  }

  predicate SomeFailed<R>(s: State<R>) {
    exists w :: 0 <= w < |s.workers| && s.workers[w].Failed?
  }

  // --- counting ----------------------------------------------------------------------------------

  function Tally(ws: seq<Worker>, f: Worker -> nat): nat {
    if ws == [] then 0 else Tally(ws[..|ws| - 1], f) + f(ws[|ws| - 1])
  }

  function CountStopped(w: Worker): nat {
    if w.Stopped? then 1 else 0
  }

  function CountBusy(w: Worker): nat {
    if w.Busy? then 1 else 0
  }

  /** What a worker still has to do at most, apart from claiming further items. */
  function Effort(w: Worker): nat {
    match w
    case Ready => 1
    case Busy(_) => 2
    case _ => 0
  }

  lemma {:induction false} TallyUpdate(ws: seq<Worker>, f: Worker -> nat, w: nat, x: Worker)
    requires w < |ws|
    ensures Tally(ws[w := x], f) == Tally(ws, f) - f(ws[w]) + f(x)
  {
    var n := |ws| - 1;
    if w < n {
      TallyUpdate(ws[..n], f, w, x);
      assert ws[w := x][..n] == ws[..n][w := x];
    } else {
      assert ws[w := x][..n] == ws[..n];
    }
  }

  /** A tally of at most one each reaches the number of workers only if every one counts. */
  lemma {:induction false} TallyBound(ws: seq<Worker>, f: Worker -> nat)
    requires forall w :: 0 <= w < |ws| ==> f(ws[w]) <= 1
    ensures Tally(ws, f) <= |ws|
    ensures Tally(ws, f) == |ws| <==> forall w :: 0 <= w < |ws| ==> f(ws[w]) == 1
  {
    if |ws| > 0 {
      var n := |ws| - 1;
      TallyBound(ws[..n], f);
      if Tally(ws, f) == |ws| {
        assert forall w :: 0 <= w < n ==> f(ws[..n][w]) == 1;
      }
    }
  }

  lemma {:induction false} TallyAllReady(k: nat, f: Worker -> nat)
    ensures Tally(seq(k, _ => Ready), f) == k * f(Ready)
  {
    if k > 0 {
      var ws := seq(k, _ => Ready);
      assert ws[..k - 1] == seq(k - 1, _ => Ready);
      TallyAllReady(k - 1, f);
      assert k * f(Ready) == (k - 1) * f(Ready) + f(Ready);
    }
  }

  /** How many of the first `m` indices stop the worker that claims them. */
  function StopsBefore<T>(items: seq<Option<T>>, m: nat): nat {
    if m == 0 then 0 else StopsBefore(items, m - 1) + (if StopsAt(items, m - 1) then 1 else 0)
  }

  lemma {:induction false} StopsBeforeMono<T>(items: seq<Option<T>>, m: nat, n: nat)
    requires m <= n
    ensures StopsBefore(items, m) <= StopsBefore(items, n)
    decreases n
  {
    if m < n {
      StopsBeforeMono(items, m, n - 1);
    }
  }

  /** The indices below `m` whose item is there, in order. */
  function CalledBelow<T>(items: seq<Option<T>>, m: nat): seq<nat> {
    if m == 0 then [] else CalledBelow(items, m - 1) + (if StopsAt(items, m - 1) then [] else [m - 1])
  }

  /** Increasing, so no index occurs twice, and exactly the defined ones. */
  lemma {:induction false} CalledBelowIs<T>(items: seq<Option<T>>, m: nat)
    ensures var c := CalledBelow(items, m);
      && (forall a, b :: 0 <= a < b < |c| ==> c[a] < c[b])
      && (forall j: nat :: j in c <==> j < m && !StopsAt(items, j))
  {
    if m > 0 {
      CalledBelowIs(items, m - 1);
      var c := CalledBelow(items, m - 1);
      assert forall a :: 0 <= a < |c| ==> c[a] in c;
    }
  }

  // --- the invariant -----------------------------------------------------------------------------

  predicate InFlight<R>(s: State<R>, i: nat) {
    exists w :: 0 <= w < |s.workers| && s.workers[w] == Busy(i)
  }

  /** What has become of a claimed item: its call is in flight, or its result is in its own slot. */
  ghost predicate Accounted<T, R>(items: seq<Option<T>>, fn: T -> Settled<R>, s: State<R>, i: nat)
    requires i < |items| == |s.out| && items[i].Some?
  {
    || InFlight(s, i)
    || (fn(items[i].value).Fulfilled? && s.out[i] == Some(fn(items[i].value).value))
    || (fn(items[i].value).Rejected? && SomeFailed(s))
  }

  /** A pool of `k` workers gets as far as index `i`: it stops there, or fewer than `k` stop before. */
  predicate WithinReach<T>(items: seq<Option<T>>, k: nat, i: nat) {
    StopsAt(items, i) || StopsBefore(items, i) < k
  }

  /** The counter, the calls made and the workers stopped agree. */
  ghost predicate Counted<T, R>(items: seq<Option<T>>, limit: int, s: State<R>) {
    && |s.workers| == WorkerCount(limit, |items|)
    && s.calls == CalledBelow(items, s.next)
    && Tally(s.workers, CountStopped) == StopsBefore(items, s.next)
    && forall i :: 0 <= i < s.next ==> WithinReach(items, |s.workers|, i)
  }

  /** Calls in flight are for claimed items whose slots are empty, one worker each. */
  ghost predicate Exclusive<R>(s: State<R>) {
    && (forall w :: 0 <= w < |s.workers| && s.workers[w].Busy? ==>
          s.workers[w].index < s.next && s.workers[w].index < |s.out| && s.out[s.workers[w].index].None?)
    && (forall v, w :: 0 <= v < w < |s.workers| && s.workers[v].Busy? ==> s.workers[v] != s.workers[w])
  }

  /** Every claimed item is accounted for, and no slot holds anything but its own item's result. */
  ghost predicate Paired<T, R(!new)>(items: seq<Option<T>>, fn: T -> Settled<R>, s: State<R>)
    requires |s.out| == |items|
  {
    && (forall i :: 0 <= i < s.next && !StopsAt(items, i) ==> Accounted(items, fn, s, i))
    && (forall i :: 0 <= i < |items| && s.out[i].Some? ==>
          i < s.next && items[i].Some? && fn(items[i].value) == Fulfilled(s.out[i].value))
    && (SomeFailed(s) ==>
          exists i :: 0 <= i < s.next && !StopsAt(items, i) && fn(items[i].value).Rejected?)
  }

  ghost predicate Inv<T, R(!new)>(items: seq<Option<T>>, limit: int, fn: T -> Settled<R>, s: State<R>) {
    Sound(items, s) && Counted(items, limit, s) && Exclusive(s) && Paired(items, fn, s)
  }

  lemma InitInv<T, R(!new)>(items: seq<Option<T>>, limit: int, fn: T -> Settled<R>)
    ensures Inv(items, limit, fn, Init<R>(limit, |items|))
  {
    TallyAllReady(WorkerCount(limit, |items|), CountStopped);
  }

  /** Only a worker that was ready or busy changes, so no failure is forgotten. */
  lemma FailureKept<R>(s: State<R>, t: State<R>, w: nat)
    requires w < |s.workers| == |t.workers| && !s.workers[w].Failed?
    requires t.workers == s.workers[w := t.workers[w]]
    ensures SomeFailed(t) <==> SomeFailed(s) || t.workers[w].Failed?
  {
    if SomeFailed(s) {
      var v :| 0 <= v < |s.workers| && s.workers[v].Failed?;
      assert t.workers[v].Failed?;
    }
    if SomeFailed(t) && !t.workers[w].Failed? {
      var v :| 0 <= v < |t.workers| && t.workers[v].Failed?;
      assert s.workers[v].Failed?;
    }
  }

  /** A call stays in flight while another worker moves. */
  lemma FlightKept<R>(s: State<R>, t: State<R>, w: nat, i: nat)
    requires w < |s.workers| == |t.workers| && t.workers == s.workers[w := t.workers[w]]
    requires InFlight(s, i) && s.workers[w] != Busy(i)
    ensures InFlight(t, i)
  {
    var v :| 0 <= v < |s.workers| && s.workers[v] == Busy(i);
    assert t.workers[v] == Busy(i);
  }

  lemma ReadyIsNotStopped(ws: seq<Worker>, w: nat)
    requires w < |ws| && ws[w].Ready?
    ensures Tally(ws, CountStopped) < |ws|
  {
    TallyBound(ws, CountStopped);
    assert CountStopped(ws[w]) == 0;
  }

  /** A worker that claims index `i` is one more that stopped exactly if `i` is one more that stops. */
  lemma ClaimCountsStops<T>(items: seq<Option<T>>, ws: seq<Worker>, w: nat, i: nat)
    requires w < |ws| && ws[w].Ready? && Tally(ws, CountStopped) == StopsBefore(items, i)
    ensures var x := if StopsAt(items, i) then Stopped else Busy(i);
      Tally(ws[w := x], CountStopped) == StopsBefore(items, i + 1)
    ensures StopsBefore(items, i) < |ws|
  {
    ReadyIsNotStopped(ws, w);
    TallyUpdate(ws, CountStopped, w, if StopsAt(items, i) then Stopped else Busy(i));
  }

  lemma ClaimKeepsCounted<T, R(!new)>(items: seq<Option<T>>, limit: int, fn: T -> Settled<R>, s: State<R>, w: nat)
    requires Sound(items, s) && Counted(items, limit, s) && Enabled(s, Claim(w))
    ensures Counted(items, limit, Apply(items, fn, s, Claim(w)))
  {
    ClaimCountsStops(items, s.workers, w, s.next);
  }

  lemma ClaimKeepsPaired<T, R(!new)>(items: seq<Option<T>>, fn: T -> Settled<R>, s: State<R>, w: nat)
    requires Sound(items, s) && Exclusive(s) && Paired(items, fn, s) && Enabled(s, Claim(w))
    ensures Paired(items, fn, Apply(items, fn, s, Claim(w)))
  {
    var t := Apply(items, fn, s, Claim(w));
    FailureKept(s, t, w);
    forall i | 0 <= i < t.next && !StopsAt(items, i)
      ensures Accounted(items, fn, t, i)
    {
      if i == s.next {
        assert t.workers[w] == Busy(i);
      } else if InFlight(s, i) {
        FlightKept(s, t, w, i);
      } else {
        assert Accounted(items, fn, s, i);
      }
    }
  }

  lemma ClaimKeepsExclusive<T, R(!new)>(items: seq<Option<T>>, fn: T -> Settled<R>, s: State<R>, w: nat)
    requires Sound(items, s) && Exclusive(s) && Paired(items, fn, s) && Enabled(s, Claim(w))
    ensures var t := Apply(items, fn, s, Claim(w)); Sound(items, t) && Exclusive(t)
  {
  }

  lemma SettleKeepsCounted<T, R(!new)>(items: seq<Option<T>>, limit: int, fn: T -> Settled<R>, s: State<R>, w: nat)
    requires Sound(items, s) && Counted(items, limit, s) && Enabled(s, Settle(w))
    ensures Counted(items, limit, Apply(items, fn, s, Settle(w)))
  {
    var t := Apply(items, fn, s, Settle(w));
    TallyUpdate(s.workers, CountStopped, w, t.workers[w]);
  }

  lemma SettleKeepsPaired<T, R(!new)>(items: seq<Option<T>>, fn: T -> Settled<R>, s: State<R>, w: nat)
    requires Sound(items, s) && Exclusive(s) && Paired(items, fn, s) && Enabled(s, Settle(w))
    ensures Paired(items, fn, Apply(items, fn, s, Settle(w)))
  {
    var t := Apply(items, fn, s, Settle(w));
    var mine := s.workers[w].index;
    FailureKept(s, t, w);
    assert !StopsAt(items, mine);
    forall i | 0 <= i < t.next && !StopsAt(items, i)
      ensures Accounted(items, fn, t, i)
    {
      assert Accounted(items, fn, s, i);
      if i != mine && InFlight(s, i) {
        FlightKept(s, t, w, i);
      }
    }
  }

  lemma SettleKeepsExclusive<T, R(!new)>(items: seq<Option<T>>, fn: T -> Settled<R>, s: State<R>, w: nat)
    requires Sound(items, s) && Exclusive(s) && Enabled(s, Settle(w))
    ensures var t := Apply(items, fn, s, Settle(w)); Sound(items, t) && Exclusive(t)
  {
    var mine := s.workers[w].index;
    assert forall v :: 0 <= v < |s.workers| && v != w && s.workers[v].Busy? ==> s.workers[v].index != mine;
  }

  lemma StepKeepsInv<T, R(!new)>(items: seq<Option<T>>, limit: int, fn: T -> Settled<R>, s: State<R>, step: Step)
    requires Inv(items, limit, fn, s) && Enabled(s, step)
    ensures Inv(items, limit, fn, Apply(items, fn, s, step))
  {
    match step
    case Claim(w) =>
      ClaimKeepsCounted(items, limit, fn, s, w);
      ClaimKeepsExclusive(items, fn, s, w);
      ClaimKeepsPaired(items, fn, s, w);
    case Settle(w) =>
      SettleKeepsCounted(items, limit, fn, s, w);
      SettleKeepsExclusive(items, fn, s, w);
      SettleKeepsPaired(items, fn, s, w);
  }

  // --- every run -----------------------------------------------------------------------------------

  /** A schedule: the states passed through, from the start, and the steps between them. */
  ghost predicate IsRun<T, R(!new)>(
    items: seq<Option<T>>, limit: int, fn: T -> Settled<R>, states: seq<State<R>>, steps: seq<Step>)
  {
    && |states| == |steps| + 1
    && states[0] == Init(limit, |items|)
    && forall n :: 0 <= n < |steps| ==>
      && Sound(items, states[n]) && Enabled(states[n], steps[n])
      && states[n + 1] == Apply(items, fn, states[n], steps[n])
  }

  /** What is left to do: three per unclaimed item, and each worker's own effort. */
  function Remaining<R>(n: nat, s: State<R>): nat {
    3 * (if s.next < n then n - s.next else 0) + Tally(s.workers, Effort)
  }

  lemma StepsMakeProgress<T, R(!new)>(items: seq<Option<T>>, fn: T -> Settled<R>, s: State<R>, step: Step)
    requires Sound(items, s) && Enabled(s, step)
    ensures Remaining(|items|, Apply(items, fn, s, step)) < Remaining(|items|, s)
  {
    var t := Apply(items, fn, s, step);
    TallyUpdate(s.workers, Effort, step.worker, t.workers[step.worker]);
  }

  /**
   In every state of every run: the calls made are those for the defined items below the counter,
   once each and in order; no two workers hold the same index; at most `limit` calls are in flight;
   no slot holds anything but its own item's result; and the run is bounded.
   */
  lemma {:induction false} EveryRunIsSafe<T, R(!new)>(
      items: seq<Option<T>>, limit: int, fn: T -> Settled<R>, states: seq<State<R>>, steps: seq<Step>)
    requires IsRun(items, limit, fn, states, steps)
    ensures var s := states[|steps|];
      && Inv(items, limit, fn, s)
      && s.calls == CalledBelow(items, s.next)
      && (forall v, w :: 0 <= v < w < |s.workers| && s.workers[v].Busy? ==> s.workers[v] != s.workers[w])
      && Tally(s.workers, CountBusy) <= (if limit > 0 then limit else 0)
      && (forall i :: 0 <= i < |items| && s.out[i].Some? ==>
            items[i].Some? && fn(items[i].value) == Fulfilled(s.out[i].value))
      && |steps| + Remaining(|items|, s) <= 3 * |items| + WorkerCount(limit, |items|)
  {
    if |steps| == 0 {
      InitInv(items, limit, fn);
      TallyAllReady(WorkerCount(limit, |items|), Effort);
    } else {
      var n := |steps| - 1;
      EveryRunIsSafe(items, limit, fn, states[..n + 1], steps[..n]);
      StepKeepsInv(items, limit, fn, states[n], steps[n]);
      StepsMakeProgress(items, fn, states[n], steps[n]);
    }
    TallyBound(states[|steps|].workers, CountBusy);
  }

  /** A run that is not finished can go on; being bounded, it therefore finishes. */
  lemma UnfinishedGoesOn<R>(s: State<R>)
    ensures Finished(s) <==> forall step :: !Enabled(s, step)
  {
    if !Finished(s) {
      var w :| 0 <= w < |s.workers| && !(s.workers[w].Stopped? || s.workers[w].Failed?);
      assert Enabled(s, Claim(w)) || Enabled(s, Settle(w));
    }
  }

  // --- what a finished run has done -------------------------------------------------------------------

  /**
   The items a pool gets to: those defined, with fewer undefined items before them than there are
   workers. Nothing about the schedule enters.
   */
  predicate Processed<T>(items: seq<Option<T>>, limit: int, i: nat) {
    !StopsAt(items, i) && WithinReach(items, WorkerCount(limit, |items|), i)
  }

  lemma {:induction false} StopsBeforeCounts<T>(items: seq<Option<T>>, m: nat)
    requires m <= |items|
    ensures StopsBefore(items, m) == |set j | 0 <= j < m && items[j].None?|
  {
    var stops := set j | 0 <= j < m && items[j].None?;
    if m == 0 {
      assert stops == {};
    } else {
      StopsBeforeCounts(items, m - 1);
      var before := set j | 0 <= j < m - 1 && items[j].None?;
      assert stops == before + (if items[m - 1].None? then {m - 1} else {});
    }
  }

  /** Said outright: the item is there, and fewer are missing before it than workers were started. */
  lemma ProcessedIff<T>(items: seq<Option<T>>, limit: int, i: nat)
    requires i < |items|
    ensures Processed(items, limit, i) <==>
            items[i].Some? && var missing := |set j | 0 <= j < i && items[j].None?|;
            missing < limit && missing < |items|
  {
    StopsBeforeCounts(items, i);
  }

  /** At any moment of a run, a worker that failed did so on the call for a processed item. */
  lemma FailureIsOfAProcessedItem<T, R(!new)>(items: seq<Option<T>>, limit: int, fn: T -> Settled<R>, s: State<R>)
    requires Inv(items, limit, fn, s) && SomeFailed(s)
    ensures exists i :: 0 <= i < |items| && Processed(items, limit, i) && fn(items[i].value).Rejected?
  {
    var i :| 0 <= i < s.next && !StopsAt(items, i) && fn(items[i].value).Rejected?;
    assert WithinReach(items, |s.workers|, i);
    assert Processed(items, limit, i);
  }

  /**
   When every worker is done, whatever the schedule was: the promise rejects if and only if the call
   for some processed item rejects, and otherwise slot `i` holds the result for item `i` exactly when
   that item was processed, and is a hole when it was not.
   */
  lemma FinishedPool<T, R(!new)>(items: seq<Option<T>>, limit: int, fn: T -> Settled<R>, s: State<R>)
    requires Inv(items, limit, fn, s) && Finished(s)
    ensures SomeFailed(s) <==>
            exists i :: 0 <= i < |items| && Processed(items, limit, i) && fn(items[i].value).Rejected?
    ensures !SomeFailed(s) ==>
      forall i :: 0 <= i < |items| ==>
        s.out[i] == if Processed(items, limit, i) then Some(fn(items[i].value).value) else None
  {
    var k := WorkerCount(limit, |items|);
    if SomeFailed(s) {
      FailureIsOfAProcessedItem(items, limit, fn, s);
    } else {
      assert forall w :: 0 <= w < |s.workers| ==> CountStopped(s.workers[w]) == 1;
      TallyBound(s.workers, CountStopped);
      assert StopsBefore(items, s.next) == k;
      forall i | 0 <= i < |items|
        ensures Processed(items, limit, i) <==> i < s.next && !StopsAt(items, i)
        ensures Processed(items, limit, i) ==> fn(items[i].value).Fulfilled?
        ensures s.out[i] == if Processed(items, limit, i) then Some(fn(items[i].value).value) else None
      {
        if i >= s.next {
          StopsBeforeMono(items, s.next, i);
        } else if !StopsAt(items, i) {
          assert Accounted(items, fn, s, i) && !InFlight(s, i);
        }
      }
    }
  }

  lemma {:induction false} NoStopsAmongDefined<T>(items: seq<Option<T>>, m: nat)
    requires m <= |items| && forall i :: 0 <= i < |items| ==> items[i].Some?
    ensures StopsBefore(items, m) == 0
  {
    if m > 0 {
      NoStopsAmongDefined(items, m - 1);
    }
  }

  /** With a positive limit and no undefined item, everything is processed. */
  lemma EverythingProcessed<T>(items: seq<Option<T>>, limit: int, i: nat)
    requires limit >= 1 && i < |items| && forall j :: 0 <= j < |items| ==> items[j].Some?
    ensures Processed(items, limit, i)
  {
    NoStopsAmongDefined(items, i);
  }

  /** As many undefined items as workers, and what follows them is never fetched. */
  lemma UndefinedItemsStarve()
    ensures var items := [None, None, Some(7)];
      !Processed(items, 2, 2) && Processed(items, 3, 2)
  {
    var items := [None, None, Some(7)];
    assert StopsBefore(items, 1) == 1;
    assert StopsBefore(items, 2) == 2;
  }

  // --- the program ---------------------------------------------------------------------------------

  /** The variables the workers share. */
  class Pool<T, R(!new)> {
    const items: seq<Option<T>>
    const fn: T -> Settled<R>
    ghost const limit: int
    var next: nat
    var workers: seq<Worker>
    const out: array<Option<R>>
    ghost var calls: seq<nat>

    ghost function View(): State<R>
      reads this, out
    {
      State(next, workers, out[..], calls)
    }

    constructor (items: seq<Option<T>>, limit: int, fn: T -> Settled<R>)
      ensures this.items == items && this.fn == fn && this.limit == limit && fresh(out)
      ensures View() == Init(limit, |items|)
    {
      this.items, this.fn, this.limit := items, fn, limit;
      next, calls := 0, [];
      workers := seq(WorkerCount(limit, |items|), _ => Ready);
      out := new Option<R>[|items|](_ => None);
      new;
      assert out[..] == seq(|items|, _ => None);
    }

    /** A ready worker takes the next index, and calls for its item or stops. */
    method Claim(w: nat)
      requires w < |workers| && workers[w].Ready? && Sound(items, View())
      modifies this`next, this`workers, this`calls
      ensures View() == Apply(items, fn, old(View()), Step.Claim(w))
    {
      var i := next;
      next := next + 1;
      if i >= |items| || items[i].None? {
        workers := workers[w := Stopped];
      } else {
        workers := workers[w := Busy(i)];
        calls := calls + [i];
      }
    }

    /** A busy worker's call settles: its result goes to its own slot, or the worker fails. */
    method Settle(w: nat)
      requires w < |workers| && workers[w].Busy? && Sound(items, View())
      modifies this`workers, out
      ensures View() == Apply(items, fn, old(View()), Step.Settle(w))
    {
      var i := workers[w].index;
      assert !StopsAt(items, View().workers[w].index);
      match fn(items[i].value) {
        case Fulfilled(r) =>
          out[i] := Some(r);
          workers := workers[w := Ready];
        case Rejected =>
          workers := workers[w := Failed];
      }
    }
  }

  /**
   The whole function, under an arbitrary scheduler: its promise rejects as soon as one call has, and
   does so exactly when the call for an item it gets to rejects; otherwise it returns once all workers
   have, and pairs every such item with its own result.
   */
  method MapWithConcurrency<T, R(!new)>(items: seq<Option<T>>, limit: int, fn: T -> Settled<R>)
    returns (result: Option<seq<Option<R>>>)
    ensures result.None? <==> exists i :: 0 <= i < |items| && Processed(items, limit, i) && fn(items[i].value).Rejected?
    ensures result.Some? ==> |result.value| == |items|
    ensures result.Some? ==>
      forall i :: 0 <= i < |items| ==>
        result.value[i] == if Processed(items, limit, i) then Some(fn(items[i].value).value) else None
  {
    var pool := new Pool(items, limit, fn);
    InitInv(items, limit, fn);
    while exists w :: 0 <= w < |pool.workers| && (pool.workers[w].Ready? || pool.workers[w].Busy?)
      invariant pool.items == items && pool.fn == fn && fresh(pool) && fresh(pool.out)
      invariant Inv(items, limit, fn, pool.View()) && !SomeFailed(pool.View())
      decreases Remaining(|items|, pool.View())
    {
      var w :| 0 <= w < |pool.workers| && (pool.workers[w].Ready? || pool.workers[w].Busy?);
      ghost var before := pool.View();
      if pool.workers[w].Ready? {
        StepKeepsInv(items, limit, fn, before, Claim(w));
        StepsMakeProgress(items, fn, before, Claim(w));
        pool.Claim(w);
      } else {
        StepKeepsInv(items, limit, fn, before, Settle(w));
        StepsMakeProgress(items, fn, before, Settle(w));
        pool.Settle(w);
      }
      FailureKept(before, pool.View(), w);
      if pool.workers[w].Failed? {
        FailureIsOfAProcessedItem(items, limit, fn, pool.View());
        return None;
      }
    }
    FinishedPool(items, limit, fn, pool.View());
    return Some(pool.out[..]);
  }
}
