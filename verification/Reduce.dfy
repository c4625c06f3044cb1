/**
 Partial closes (`clients/js/src/reduce.ts`): one reduction, and any sequence of them.

 Collateral and entry notional are floored proportions, so every reduction leaves the odd unit with
 the surviving position; only the full close hands over everything that is left.
 */
module Reduce {
  import opened BigInts
  import opened Results

  datatype Refusal = ZeroAmount | ReductionExceedsSize

  datatype Position = Position(sizeBase: nat, collateral: nat, entryNotional: nat)

  datatype Preview = Preview(
    sizeDelta: int,
    remainingSize: int,
    releasedCollateral: int,
    remainingCollateral: int,
    closedEntryNotional: int,
    remainingEntryNotional: int,
    isFullClose: bool)

  predicate ReduceIsFullClose(sizeDelta: int, position: Position) {
    sizeDelta >= position.sizeBase
  }

  function PreviewReduce(position: Position, sizeDelta: int): Result<Preview, Refusal> {
    if sizeDelta <= 0 then Err(ZeroAmount)
    else if sizeDelta > position.sizeBase then Err(ReductionExceedsSize)
    else
      var isFullClose := sizeDelta == position.sizeBase;
      var released := if isFullClose then position.collateral
                      else MulDivFloor(position.collateral, sizeDelta, position.sizeBase);
      var closed := if isFullClose then position.entryNotional
                    else MulDivFloor(position.entryNotional, sizeDelta, position.sizeBase);
      Ok(Preview(sizeDelta, position.sizeBase - sizeDelta, released, position.collateral - released,
                 closed, position.entryNotional - closed, isFullClose))
  }

  /** `percent` is a JavaScript number; `Math.trunc` drops its fraction. */
  function SizeForPercent(position: Position, percent: real): int {
    if percent >= 100.0 then position.sizeBase
    else if percent <= 0.0 then 0
    else MulDivFloor(position.sizeBase, percent.Floor, 100)
  }

  // --- one reduction ---------------------------------------------------------------------------

  /** A floored share of `amount`, cut off at `part` of `whole`, leaves at least the rest's share. */
  lemma FlooredShare(amount: nat, part: nat, whole: nat)
    requires part <= whole && whole > 0
    ensures 0 <= MulDivFloor(amount, part, whole) <= amount
    ensures amount * (whole - part) <= (amount - MulDivFloor(amount, part, whole)) * whole
    ensures amount > 0 && part < whole ==> MulDivFloor(amount, part, whole) < amount
  {
    var q := MulDivFloor(amount, part, whole);
    QuotIsFloor(amount * part, whole);
    FloorBounds(amount * part, whole);
    assert (amount - q) * whole == amount * whole - q * whole;
    assert amount * (whole - part) == amount * whole - amount * part;
    MulMono(part, whole, amount);
    MulCancel(q, amount, whole);
    if amount > 0 && part < whole && q == amount {
      MulMono(1, whole - part, amount);
      assert false;
    }
  }

  /** The position a reduction leaves behind. */
  function Remaining(p: Preview): Position
    requires p.remainingSize >= 0 && p.remainingCollateral >= 0 && p.remainingEntryNotional >= 0
  {
    Position(p.remainingSize, p.remainingCollateral, p.remainingEntryNotional)
  }

  /** `p`'s figure per unit of size is at most `q`'s, for collateral and for entry notional. */
  predicate BackedAtLeast(p: Position, q: Position) {
    && p.collateral * q.sizeBase <= q.collateral * p.sizeBase
    && p.entryNotional * q.sizeBase <= q.entryNotional * p.sizeBase
  }

  /**
   One reduction: accepted exactly for a positive size within the position; nothing is created or
   lost; what survives is at least as well backed per unit, and keeps some collateral.
   */
  lemma ReductionKeeps(position: Position, sizeDelta: int)
    ensures PreviewReduce(position, sizeDelta).Ok? <==> 0 < sizeDelta <= position.sizeBase
    ensures PreviewReduce(position, sizeDelta) == Err(ZeroAmount) <==> sizeDelta <= 0
    ensures PreviewReduce(position, sizeDelta) == Err(ReductionExceedsSize) <==>
            0 < sizeDelta && position.sizeBase < sizeDelta
    ensures PreviewReduce(position, sizeDelta).Ok? ==>
      var p := PreviewReduce(position, sizeDelta).value;
      && p.remainingSize >= 0 && p.remainingCollateral >= 0 && p.remainingEntryNotional >= 0
      && p.releasedCollateral >= 0 && p.closedEntryNotional >= 0
      && p.sizeDelta == sizeDelta && p.remainingSize == position.sizeBase - sizeDelta
      && p.releasedCollateral + p.remainingCollateral == position.collateral
      && p.closedEntryNotional + p.remainingEntryNotional == position.entryNotional
      && BackedAtLeast(position, Remaining(p))
      && (p.isFullClose <==> ReduceIsFullClose(sizeDelta, position))
      && (p.isFullClose <==> p.remainingSize == 0)
      && (p.isFullClose ==> Remaining(p) == Position(0, 0, 0))
      && (!p.isFullClose && position.collateral > 0 ==> p.remainingCollateral > 0)
  {
    if 0 < sizeDelta < position.sizeBase {
      FlooredShare(position.collateral, sizeDelta, position.sizeBase);
      FlooredShare(position.entryNotional, sizeDelta, position.sizeBase);
    }
  }

  /** What a reduction takes is the most that does not exceed its proportion of each figure. */
  lemma ReleasedIsTheMost(position: Position, sizeDelta: int, k: nat)
    requires PreviewReduce(position, sizeDelta).Ok?
    ensures var p := PreviewReduce(position, sizeDelta).value;
      && (k <= p.releasedCollateral <==> k * position.sizeBase <= position.collateral * sizeDelta)
      && (k <= p.closedEntryNotional <==> k * position.sizeBase <= position.entryNotional * sizeDelta)
  {
    FloorGalois(position.collateral * sizeDelta, position.sizeBase, k);
    FloorGalois(position.entryNotional * sizeDelta, position.sizeBase, k);
    if sizeDelta == position.sizeBase {
      FloorIs(position.collateral * sizeDelta, sizeDelta, position.collateral);
      FloorIs(position.entryNotional * sizeDelta, sizeDelta, position.entryNotional);
    } else {
      MulMono(0, position.collateral, sizeDelta);
      MulMono(0, position.entryNotional, sizeDelta);
      QuotIsFloor(position.collateral * sizeDelta, position.sizeBase);
      QuotIsFloor(position.entryNotional * sizeDelta, position.sizeBase);
    }
  }

  /** Below one hundred percent, the preset never closes a position, nor exceeds its floored share. */
  lemma PercentNeverCloses(position: Position, percent: real)
    requires position.sizeBase > 0
    ensures ReduceIsFullClose(SizeForPercent(position, percent), position) <==> percent >= 100.0
    ensures 0 <= SizeForPercent(position, percent) <= position.sizeBase
    ensures percent <= 0.0 ==> SizeForPercent(position, percent) == 0
    ensures percent >= 100.0 ==> SizeForPercent(position, percent) == position.sizeBase
    ensures 0.0 < percent < 100.0 ==>
      var size := SizeForPercent(position, percent);
      size * 100 <= position.sizeBase * percent.Floor < size * 100 + 100
  {
    if 0.0 < percent < 100.0 {
      var k := percent.Floor;
      assert 0 <= k <= 99;
      QuotIsFloor(position.sizeBase * k, 100);
      FloorBounds(position.sizeBase * k, 100);
      MulMono(k, 99, position.sizeBase);
    }
  }

  // --- a sequence of reductions ------------------------------------------------------------------

  datatype Outcome = Outcome(position: Position, released: int, closedNotional: int)

  /** Reduce by each size in turn, adding up what comes out. */
  function ReduceAll(position: Position, sizes: seq<int>): Result<Outcome, Refusal> {
    if sizes == [] then Ok(Outcome(position, 0, 0))
    else
      var before :- ReduceAll(position, sizes[..|sizes| - 1]);
      var p :- PreviewReduce(before.position, sizes[|sizes| - 1]);
      assert p.remainingSize >= 0 && p.remainingCollateral >= 0 && p.remainingEntryNotional >= 0 by {
        ReductionKeeps(before.position, sizes[|sizes| - 1]);
      }
      Ok(Outcome(Remaining(p), before.released + p.releasedCollateral,
                 before.closedNotional + p.closedEntryNotional))
  }

  function Sum(sizes: seq<int>): int {
    if sizes == [] then 0 else Sum(sizes[..|sizes| - 1]) + sizes[|sizes| - 1]
  }

  lemma BackedAtLeastTransitive(p: Position, q: Position, r: Position)
    requires q.sizeBase > 0 && BackedAtLeast(p, q) && BackedAtLeast(q, r)
    ensures BackedAtLeast(p, r)
  {
    RatioTransitive(p.collateral, p.sizeBase, q.collateral, q.sizeBase, r.collateral, r.sizeBase);
    RatioTransitive(p.entryNotional, p.sizeBase, q.entryNotional, q.sizeBase, r.entryNotional, r.sizeBase);
  }

  /**
   Over any sequence of reductions collateral and entry notional are conserved to the unit, and
   collateral per unit of size never falls. A sequence that ends in a full close therefore releases
   exactly what was posted, and a position that survives keeps some.
   */
  lemma {:induction false} ReductionsConserve(position: Position, sizes: seq<int>)
    requires ReduceAll(position, sizes).Ok?
    ensures var o := ReduceAll(position, sizes).value;
      && o.position.sizeBase == position.sizeBase - Sum(sizes)
      && o.released + o.position.collateral == position.collateral
      && o.closedNotional + o.position.entryNotional == position.entryNotional
      && BackedAtLeast(position, o.position)
      && (o.position.sizeBase == 0 && |sizes| > 0 ==>
            o.released == position.collateral && o.closedNotional == position.entryNotional)
      && (o.position.sizeBase > 0 && position.collateral > 0 ==> o.position.collateral > 0)
  {
    if |sizes| > 0 {
      var n := |sizes| - 1;
      ReductionsConserve(position, sizes[..n]);
      var before := ReduceAll(position, sizes[..n]).value;
      ReductionKeeps(before.position, sizes[n]);
      BackedAtLeastTransitive(position, before.position, ReduceAll(position, sizes).value.position);
    }
  }

  lemma {:induction false} AcceptedSizesArePositive(position: Position, sizes: seq<int>)
    requires ReduceAll(position, sizes).Ok?
    ensures 0 <= Sum(sizes) <= position.sizeBase
    ensures |sizes| > 0 ==> Sum(sizes) > 0
  {
    if |sizes| > 0 {
      var n := |sizes| - 1;
      AcceptedSizesArePositive(position, sizes[..n]);
      ReductionsConserve(position, sizes[..n]);
      ReductionKeeps(ReduceAll(position, sizes[..n]).value.position, sizes[n]);
    }
  }

  /**
   Splitting a reduction never pays: at every prefix, the collateral released and the notional
   closed are at most what one reduction of the same total size would have taken.
   */
  lemma SplittingNeverReleasesMore(position: Position, sizes: seq<int>)
    requires ReduceAll(position, sizes).Ok? && |sizes| > 0
    ensures PreviewReduce(position, Sum(sizes)).Ok?
    ensures var o, one := ReduceAll(position, sizes).value, PreviewReduce(position, Sum(sizes)).value;
      o.released <= one.releasedCollateral && o.closedNotional <= one.closedEntryNotional
  {
    var o, total := ReduceAll(position, sizes).value, Sum(sizes);
    AcceptedSizesArePositive(position, sizes);
    ReductionsConserve(position, sizes);
    ShareBound(position.collateral, o.position.collateral, total, position.sizeBase);
    ShareBound(position.entryNotional, o.position.entryNotional, total, position.sizeBase);
  }

  lemma ShareBound(amount: nat, left: nat, part: nat, whole: nat)
    requires 0 < part <= whole && amount * (whole - part) <= left * whole
    ensures amount - left <= MulDivFloor(amount, part, whole)
  {
    QuotIsFloor(amount * part, whole);
    assert (amount - left) * whole == amount * whole - left * whole;
    assert amount * (whole - part) == amount * whole - amount * part;
    FloorGalois(amount * part, whole, amount - left);
  }
}
