/**
 Where an evaluation stands (`evalProgress` of `app/src/lib/nox.ts`), beside the check it mirrors
 (`claim_stage_pass` of `programs/noxfunds/src/instructions/evaluation.rs`).
 */
module Stage {
  import opened BigInts
  import opened Results
  import opened Units

  const TARGET_BPS: seq<nat> := [800, 500]
  const MAX_DRAWDOWN_BPS: nat := 600
  const MIN_TRADES: nat := 10
  const MIN_DAYS: nat := 5
  const MIN_AVG_HOLD_SECS: nat := 2_700
  const CONSISTENCY_BPS: nat := 5_000

  datatype Evaluation = Evaluation(
    state: nat,
    stage: nat,
    accountSize: nat,
    balance: int,
    peakEquity: nat,
    dayStartEquity: nat,
    dayPnl: int,
    openPositions: nat,
    pendingOrders: nat,
    trades: nat,
    tradingDays: nat,
    voluntaryCloses: nat,
    voluntaryHoldSecs: nat,
    bestDayPnl: int)

  datatype Blocker =
    | NotActive
    | PositionsOpen
    | DrawdownPastLimit
    | BelowTarget
    | TooFewTrades
    | TooFewDays
    | HoldTooShort
    | OneDayTooLarge

  datatype Progress = Progress(
    stage: nat,
    equity: nat,
    targetEquity: int,
    profitBps: int,
    targetBps: nat,
    drawdownBps: int,
    dailyLossBps: int,
    blocker: Option<Blocker>)

  function Size(e: Evaluation): nat {
    if e.accountSize == 0 then 1 else e.accountSize
  }

  function Equity(e: Evaluation): nat {
    if e.balance > 0 then e.balance else 0
  }

  function TargetBps(stage: nat): nat {
    if 0 <= stage - 1 < |TARGET_BPS| then TARGET_BPS[stage - 1] else TARGET_BPS[1]
  }

  function EvalProgress(e: Evaluation): Progress {
    var size := Size(e);
    var equity := Equity(e);
    var stage := if e.stage < 1 then 1 else e.stage;
    var targetBps := TargetBps(stage);
    var target := CeilDiv(size * targetBps, BPS_PRECISION);
    var targetEquity := size + target;
    var profitBps := if equity > size then Quot((equity - size) * BPS_PRECISION, size) else 0;
    var drawdownBps := if e.peakEquity > 0 && equity < e.peakEquity
                       then Quot((e.peakEquity - equity) * BPS_PRECISION, e.peakEquity) else 0;
    var dailyLossBps := if e.dayStartEquity > 0 && e.dayPnl < 0
                        then Quot(-e.dayPnl * BPS_PRECISION, e.dayStartEquity) else 0;
    var avgHold := if e.voluntaryCloses > 0 then Some(Quot(e.voluntaryHoldSecs, e.voluntaryCloses)) else None;
    var consistencyCap := Quot(target * CONSISTENCY_BPS, BPS_PRECISION);
    var blocker :=
      if e.state != 0 then Some(NotActive)
      else if e.openPositions > 0 then Some(PositionsOpen)
      else if drawdownBps > MAX_DRAWDOWN_BPS then Some(DrawdownPastLimit)
      else if equity < targetEquity then Some(BelowTarget)
      else if e.trades < MIN_TRADES then Some(TooFewTrades)
      else if e.tradingDays < MIN_DAYS then Some(TooFewDays)
      else if avgHold.Some? && avgHold.value < MIN_AVG_HOLD_SECS then Some(HoldTooShort)
      else if e.bestDayPnl > consistencyCap then Some(OneDayTooLarge)
      else None;
    Progress(stage, equity, targetEquity, profitBps, targetBps, drawdownBps, dailyLossBps, blocker)
  }

  /** `Evaluation::drawdown_bps` of the program: rounded up, against a peak of at least one. */
  function ProgramDrawdownBps(e: Evaluation): int {
    var peak := if e.peakEquity > 1 then e.peakEquity else 1;
    var lost := if peak > Equity(e) then peak - Equity(e) else 0;
    MulDivCeil(lost, BPS_PRECISION, peak)
  }

  datatype ProgramError =
    | EvaluationNotActive
    | PositionsStillOpen
    | EntryOrdersPending
    | DrawdownExceeded
    | EvaluationIncomplete
    | ConsistencyRuleViolated

  /** The refusals of `claim_stage_pass`, in its order. */
  function ClaimRefusal(e: Evaluation): Option<ProgramError> {
    var index := if e.stage > 0 then e.stage - 1 else 0;
    if e.state != 0 then Some(EvaluationNotActive)
    else if e.openPositions != 0 then Some(PositionsStillOpen)
    else if e.pendingOrders != 0 then Some(EntryOrdersPending)
    else if ProgramDrawdownBps(e) > MAX_DRAWDOWN_BPS then Some(DrawdownExceeded)
    else if index >= |TARGET_BPS| then Some(EvaluationNotActive)
    else
      var target := MulDivCeil(e.accountSize, TARGET_BPS[index], BPS_PRECISION);
      if Equity(e) < e.accountSize + target then Some(EvaluationIncomplete)
      else if e.trades < MIN_TRADES then Some(EvaluationIncomplete)
      else if e.tradingDays < MIN_DAYS then Some(EvaluationIncomplete)
      else if e.voluntaryCloses > 0 && Quot(e.voluntaryHoldSecs, e.voluntaryCloses) < MIN_AVG_HOLD_SECS
      then Some(EvaluationIncomplete)
      else if (if e.bestDayPnl > 0 then e.bestDayPnl else 0) > MulDivFloor(target, CONSISTENCY_BPS, BPS_PRECISION)
      then Some(ConsistencyRuleViolated)
      else None
  }

  /** The program's name for what the client says. */
  function Named(blocker: Option<Blocker>): Option<ProgramError> {
    match blocker
    case None => None
    case Some(b) =>
      Some(match b
           case NotActive => EvaluationNotActive
           case PositionsOpen => PositionsStillOpen
           case DrawdownPastLimit => DrawdownExceeded
           case BelowTarget => EvaluationIncomplete
           case TooFewTrades => EvaluationIncomplete
           case TooFewDays => EvaluationIncomplete
           case HoldTooShort => EvaluationIncomplete
           case OneDayTooLarge => ConsistencyRuleViolated)
  }

  /** How far equity has fallen from its peak. */
  function Fallen(e: Evaluation): nat {
    if Equity(e) < e.peakEquity then e.peakEquity - Equity(e) else 0
  }

  /** The stage's requirements as the client reads them, in products of the account's own figures. */
  predicate StageComplete(e: Evaluation) {
    var size, bps := Size(e), TargetBps(if e.stage < 1 then 1 else e.stage);
    && e.state == 0 && e.openPositions == 0
    && (Fallen(e) > 0 ==> Fallen(e) * BPS_PRECISION < (MAX_DRAWDOWN_BPS + 1) * e.peakEquity)
    && (Equity(e) - size) * BPS_PRECISION >= size * bps
    && e.trades >= MIN_TRADES && e.tradingDays >= MIN_DAYS
    && e.voluntaryHoldSecs >= MIN_AVG_HOLD_SECS * e.voluntaryCloses
    && 2 * e.bestDayPnl <= Ceil(size * bps, BPS_PRECISION)
  }

  /** The displayed profit, floored, agrees with the goal, ceiled: neither ever contradicts the other. */
  lemma ProfitAgreesWithGoal(e: Evaluation)
    ensures var p := EvalProgress(e);
      && (p.profitBps >= p.targetBps <==> p.equity >= p.targetEquity)
      && (p.equity >= p.targetEquity <==> (p.equity - Size(e)) * BPS_PRECISION >= Size(e) * p.targetBps)
  {
    var p := EvalProgress(e);
    var size := Size(e);
    MulMono(1, p.targetBps, size);
    CeilDivIsCeil(size * p.targetBps, BPS_PRECISION);
    CeilGalois(size * p.targetBps, BPS_PRECISION, p.equity - size);
    if p.equity > size {
      QuotIsFloor((p.equity - size) * BPS_PRECISION, size);
      FloorGalois((p.equity - size) * BPS_PRECISION, size, p.targetBps);
    }
  }

  /** The three figures shown are each the most whole basis points reached. */
  lemma FiguresAreFloored(e: Evaluation, k: nat)
    requires k > 0
    ensures var p := EvalProgress(e);
      && (k <= p.profitBps <==> k * Size(e) <= (p.equity - Size(e)) * BPS_PRECISION)
      && (k <= p.drawdownBps <==> Fallen(e) > 0 && k * e.peakEquity <= Fallen(e) * BPS_PRECISION)
      && (k <= p.dailyLossBps <==> e.dayStartEquity > 0 && k * e.dayStartEquity <= -e.dayPnl * BPS_PRECISION)
  {
    var size := Size(e);
    MulMono(1, k, size);
    if Equity(e) > size {
      QuotIsFloor((Equity(e) - size) * BPS_PRECISION, size);
      FloorGalois((Equity(e) - size) * BPS_PRECISION, size, k);
    }
    if Fallen(e) > 0 {
      QuotIsFloor(Fallen(e) * BPS_PRECISION, e.peakEquity);
      FloorGalois(Fallen(e) * BPS_PRECISION, e.peakEquity, k);
    }
    if e.dayStartEquity > 0 {
      MulMono(1, k, e.dayStartEquity);
      if e.dayPnl < 0 {
        QuotIsFloor(-e.dayPnl * BPS_PRECISION, e.dayStartEquity);
        FloorGalois(-e.dayPnl * BPS_PRECISION, e.dayStartEquity, k);
      }
    }
  }

  /** The figures that are not measured: stage, equity, target and goal. */
  lemma FiguresShown(e: Evaluation, k: nat)
    ensures var p := EvalProgress(e);
      && p.stage == (if e.stage == 0 then 1 else e.stage)
      && p.equity == (if e.balance < 0 then 0 else e.balance)
      && p.targetBps == (if e.stage <= 1 then 800 else 500)
      && var size := if e.accountSize == 0 then 1 else e.accountSize;
      && (p.targetEquity <= size + k <==> size * p.targetBps <= k * 10_000)
  {
    var bps := EvalProgress(e).targetBps;
    MulMono(0, Size(e), bps);
    CeilDivIsCeil(Size(e) * bps, BPS_PRECISION);
    CeilGalois(Size(e) * bps, BPS_PRECISION, k);
  }

  lemma ClientDrawdown(e: Evaluation)
    ensures EvalProgress(e).drawdownBps <= MAX_DRAWDOWN_BPS <==>
      (Fallen(e) > 0 ==> Fallen(e) * BPS_PRECISION < (MAX_DRAWDOWN_BPS + 1) * e.peakEquity)
  {
    if Fallen(e) > 0 {
      QuotIsFloor(Fallen(e) * BPS_PRECISION, e.peakEquity);
      FloorGalois(Fallen(e) * BPS_PRECISION, e.peakEquity, MAX_DRAWDOWN_BPS + 1);
    }
  }

  lemma AverageHold(holdSecs: nat, closes: nat)
    ensures (closes > 0 ==> Quot(holdSecs, closes) >= MIN_AVG_HOLD_SECS) <==> holdSecs >= MIN_AVG_HOLD_SECS * closes
  {
    if closes > 0 {
      QuotIsFloor(holdSecs, closes);
      FloorGalois(holdSecs, closes, MIN_AVG_HOLD_SECS);
    }
  }

  /** No blocker is reported exactly when every requirement of the stage, as read here, is met. */
  lemma NoBlockerIffComplete(e: Evaluation)
    ensures EvalProgress(e).blocker == None <==> StageComplete(e)
  {
    var p := EvalProgress(e);
    ProfitAgreesWithGoal(e);
    ClientDrawdown(e);
    AverageHold(e.voluntaryHoldSecs, e.voluntaryCloses);
    var target := CeilDiv(Size(e) * p.targetBps, BPS_PRECISION);
    CeilDivIsCeil(Size(e) * p.targetBps, BPS_PRECISION);
    QuotIsFloor(target * CONSISTENCY_BPS, BPS_PRECISION);
    FloorGalois(target * CONSISTENCY_BPS, BPS_PRECISION, e.bestDayPnl);
  }

  /** The requirement a blocker is about, as the client reads it. */
  predicate Requirement(b: Blocker, e: Evaluation) {
    var size, bps := Size(e), TargetBps(if e.stage < 1 then 1 else e.stage);
    match b
    case NotActive => e.state == 0
    case PositionsOpen => e.openPositions == 0
    case DrawdownPastLimit => Fallen(e) > 0 ==> Fallen(e) * BPS_PRECISION < (MAX_DRAWDOWN_BPS + 1) * e.peakEquity
    case BelowTarget => (Equity(e) - size) * BPS_PRECISION >= size * bps
    case TooFewTrades => e.trades >= 10
    case TooFewDays => e.tradingDays >= 5
    case HoldTooShort => e.voluntaryHoldSecs >= 2_700 * e.voluntaryCloses
    case OneDayTooLarge => 2 * e.bestDayPnl <= Ceil(size * bps, BPS_PRECISION)
  }

  /** In the order the client checks. */
  function Rank(b: Blocker): nat {
    match b
    case NotActive => 0
    case PositionsOpen => 1
    case DrawdownPastLimit => 2
    case BelowTarget => 3
    case TooFewTrades => 4
    case TooFewDays => 5
    case HoldTooShort => 6
    case OneDayTooLarge => 7
  }

  /** Each requirement is what the client computes to check it. */
  lemma RequirementsInFigures(e: Evaluation)
    ensures var p := EvalProgress(e);
      && (Requirement(DrawdownPastLimit, e) <==> p.drawdownBps <= MAX_DRAWDOWN_BPS)
      && (Requirement(BelowTarget, e) <==> p.equity >= p.targetEquity)
      && (Requirement(HoldTooShort, e) <==>
            (e.voluntaryCloses > 0 ==> Quot(e.voluntaryHoldSecs, e.voluntaryCloses) >= MIN_AVG_HOLD_SECS))
      && (Requirement(OneDayTooLarge, e) <==>
            e.bestDayPnl <= Quot(CeilDiv(Size(e) * p.targetBps, BPS_PRECISION) * CONSISTENCY_BPS, BPS_PRECISION))
  {
    var p := EvalProgress(e);
    ProfitAgreesWithGoal(e);
    ClientDrawdown(e);
    AverageHold(e.voluntaryHoldSecs, e.voluntaryCloses);
    var target := CeilDiv(Size(e) * p.targetBps, BPS_PRECISION);
    CeilDivIsCeil(Size(e) * p.targetBps, BPS_PRECISION);
    QuotIsFloor(target * CONSISTENCY_BPS, BPS_PRECISION);
    FloorGalois(target * CONSISTENCY_BPS, BPS_PRECISION, e.bestDayPnl);
  }

  /** The blocker shown is the first requirement that is not met, and none is shown when all are. */
  lemma BlockerIsTheFirst(e: Evaluation)
    ensures var shown := EvalProgress(e).blocker;
      if shown.None? then forall b: Blocker :: Requirement(b, e)
      else !Requirement(shown.value, e) && forall b: Blocker :: Rank(b) < Rank(shown.value) ==> Requirement(b, e)
  {
    RequirementsInFigures(e);
  }

  lemma ProgramDrawdown(e: Evaluation)
    requires e.peakEquity > 0 || Equity(e) > 0
    ensures ProgramDrawdownBps(e) <= MAX_DRAWDOWN_BPS <==> Fallen(e) * BPS_PRECISION <= MAX_DRAWDOWN_BPS * e.peakEquity
  {
    var peak := if e.peakEquity > 1 then e.peakEquity else 1;
    var lost := if peak > Equity(e) then peak - Equity(e) else 0;
    MulDivCeilIsCeil(lost, BPS_PRECISION, peak);
    CeilGalois(lost * BPS_PRECISION, peak, MAX_DRAWDOWN_BPS);
  }

  /** The two read the same goal, and the same cap on one day, off a stage that exists. */
  lemma SameGoal(e: Evaluation)
    requires e.accountSize > 0 && e.stage <= 2
    ensures var bps := EvalProgress(e).targetBps;
      var target := MulDivCeil(e.accountSize, bps, BPS_PRECISION);
      && bps == TARGET_BPS[if e.stage > 0 then e.stage - 1 else 0]
      && target == CeilDiv(e.accountSize * bps, BPS_PRECISION) >= 0
      && MulDivFloor(target, CONSISTENCY_BPS, BPS_PRECISION) >= 0
  {
    var bps := EvalProgress(e).targetBps;
    MulDivCeilIsCeil(e.accountSize, bps, BPS_PRECISION);
    CeilDivIsCeil(e.accountSize * bps, BPS_PRECISION);
    QuotIsFloor(MulDivCeil(e.accountSize, bps, BPS_PRECISION) * CONSISTENCY_BPS, BPS_PRECISION);
  }

  /** The drawdown is past the limit by a whole basis point, as the client floors it. */
  predicate WellPastTheLimit(e: Evaluation) {
    Fallen(e) > 0 && (MAX_DRAWDOWN_BPS + 1) * e.peakEquity <= Fallen(e) * BPS_PRECISION
  }

  /** It is past the limit by less: floored it is not, ceiled it is. */
  predicate JustPastTheLimit(e: Evaluation) {
    MAX_DRAWDOWN_BPS * e.peakEquity < Fallen(e) * BPS_PRECISION < (MAX_DRAWDOWN_BPS + 1) * e.peakEquity
  }

  /** An account that never had equity: the program counts a peak of one, and so a total loss. */
  predicate NeverFunded(e: Evaluation) {
    e.peakEquity == 0 && Equity(e) == 0
  }

  predicate TooLittleActivity(e: Evaluation) {
    e.trades < MIN_TRADES || e.tradingDays < MIN_DAYS || e.voluntaryHoldSecs < MIN_AVG_HOLD_SECS * e.voluntaryCloses
  }

  /** An account of no size: its goal is two units to the client, and none to the program. */
  predicate GoalsDiffer(e: Evaluation) {
    e.accountSize == 0 && Equity(e) < 2
  }

  /**
   The client promises to name the refusal that would come back. It does exactly when one of the
   first two requirements already fails, or no entry order is pending and the two agree on the rest:
   both see the drawdown past its limit, or neither does and the stage is one of the two and their
   goals are the same or the account is too idle to pass anyway.
   */
  lemma BlockerNamesTheRefusalIff(e: Evaluation)
    ensures ClaimRefusal(e) == Named(EvalProgress(e).blocker) <==>
      || e.state != 0 || e.openPositions > 0
      || (e.pendingOrders == 0 && WellPastTheLimit(e))
      || (e.pendingOrders == 0 && !JustPastTheLimit(e) && !NeverFunded(e)
          && e.stage <= 2 && (GoalsDiffer(e) ==> TooLittleActivity(e)))
  {
    ClientDrawdown(e);
    AverageHold(e.voluntaryHoldSecs, e.voluntaryCloses);
    if !NeverFunded(e) {
      ProgramDrawdown(e);
    } else {
      assert ProgramDrawdownBps(e) == BPS_PRECISION;
    }
    if e.stage <= 2 {
      GoalsOf(e);
    }
  }

  /** The goals and the caps on one day, whatever the size of the account. */
  lemma GoalsOf(e: Evaluation)
    requires e.stage <= 2
    ensures var bps := EvalProgress(e).targetBps;
      var target := MulDivCeil(e.accountSize, bps, BPS_PRECISION);
      && bps == TARGET_BPS[if e.stage > 0 then e.stage - 1 else 0]
      && MulDivFloor(target, CONSISTENCY_BPS, BPS_PRECISION) >= 0
      && (e.accountSize > 0 ==> target == CeilDiv(Size(e) * bps, BPS_PRECISION))
      && (e.accountSize == 0 ==> target == 0 && CeilDiv(Size(e) * bps, BPS_PRECISION) == 1)
  {
    var bps := EvalProgress(e).targetBps;
    if e.accountSize > 0 {
      SameGoal(e);
    } else {
      assert 0 * bps == 0 && 1 * bps == bps;
    }
  }

  /**
   So a claim is one the program passes exactly when the client enables it, no entry order is
   pending, the stage is one of the two, and the drawdown, which the client floors and the program
   ceils, is not a fraction of a basis point past the limit. Where the goals differ, on an account of
   no size with less than two units, the client enables nothing.
   */
  lemma ClaimPassesIff(e: Evaluation)
    ensures !GoalsDiffer(e) ==>
      (ClaimRefusal(e) == None <==>
       EvalProgress(e).blocker == None && e.pendingOrders == 0 && e.stage <= 2 && !JustPastTheLimit(e))
    ensures GoalsDiffer(e) ==> EvalProgress(e).blocker != None
  {
    ClientDrawdown(e);
    AverageHold(e.voluntaryHoldSecs, e.voluntaryCloses);
    if !NeverFunded(e) {
      ProgramDrawdown(e);
    } else {
      assert ProgramDrawdownBps(e) == BPS_PRECISION;
    }
    if e.stage <= 2 {
      GoalsOf(e);
    }
    ProfitAgreesWithGoal(e);
  }

  /** Both gaps are real: a resting entry order, and a drawdown of 600.5 basis points. */
  lemma EnabledClaimCanBeRefused()
    ensures exists e :: EvalProgress(e).blocker == None && ClaimRefusal(e) == Some(EntryOrdersPending) && e.stage == 1
    ensures exists e :: EvalProgress(e).blocker == None && ClaimRefusal(e) == Some(DrawdownExceeded) && e.stage == 1
  {
    var complete := Evaluation(0, 1, 80_000, 93_995, 93_995, 90_000, 100, 0, 1, 10, 5, 10, 27_000, 3_000);
    NoBlockerIffComplete(complete);
    assert Ceil(80_000 * 800, BPS_PRECISION) == 6_400;
    assert EvalProgress(complete).blocker == None && ClaimRefusal(complete) == Some(EntryOrdersPending);
    var fallen := complete.(peakEquity := 100_000, pendingOrders := 0);
    NoBlockerIffComplete(fallen);
    ProgramDrawdown(fallen);
    assert EvalProgress(fallen).blocker == None && ClaimRefusal(fallen) == Some(DrawdownExceeded);
  }
}
