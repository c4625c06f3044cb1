/** How a mandate's final equity is divided (`previewSplit` of `app/src/lib/nox.ts`). */
module Settlement {
  import opened BigInts
  import opened Units

  datatype Split = Split(investor: int, trader: int, protocol: int, gross: nat)

  function PreviewSplit(finalEquity: nat, principal: nat, feeBps: nat, traderBps: nat): Split {
    var gross := if finalEquity > principal then finalEquity - principal else 0;
    if gross == 0 then Split(finalEquity, 0, 0, 0)
    else
      var fee := Quot(gross * feeBps + BPS_PRECISION - 1, BPS_PRECISION);
      var protocol := if fee > gross then gross else fee;
      var net := gross - protocol;
      var trader := Quot(net * traderBps, BPS_PRECISION);
      Split(finalEquity - protocol - trader, trader, protocol, gross)
  }

  /** What is left of a profit once the protocol has taken its capped, rounded-up fee. */
  function Net(finalEquity: nat, principal: nat, feeBps: nat): int {
    if finalEquity <= principal then 0
    else finalEquity - principal - PreviewSplit(finalEquity, principal, feeBps, 0).protocol
  }

  /** A share of at most the whole, floored, grows no faster than what it is a share of. */
  lemma FlooredShareIsLipschitz(m: nat, n: nat, bps: nat)
    requires m <= n && bps <= BPS_PRECISION
    ensures 0 <= Floor(n * bps, BPS_PRECISION) - Floor(m * bps, BPS_PRECISION) <= n - m
  {
    MulMono(m, n, bps);
    FloorMono(m * bps, n * bps, BPS_PRECISION);
    assert n * bps == m * bps + (n - m) * bps;
    MulMono(bps, BPS_PRECISION, n - m);
    assert bps * (n - m) == (n - m) * bps;
    FloorBounds(m * bps, BPS_PRECISION);
    FloorBounds(n * bps, BPS_PRECISION);
  }

  /** The fee on a profit: rounded up, and capped at the whole of it exactly at a rate of the whole. */
  lemma CappedFee(gross: nat, feeBps: nat)
    ensures var fee := Quot(gross * feeBps + BPS_PRECISION - 1, BPS_PRECISION);
      && fee == Ceil(gross * feeBps, BPS_PRECISION) >= 0
      && (feeBps < BPS_PRECISION ==> fee <= gross)
      && (feeBps >= BPS_PRECISION ==> fee >= gross)
  {
    var n := gross * feeBps;
    assert 0 <= n by {
      MulMono(0, gross, feeBps);
    }
    CeilDivIsCeil(n, BPS_PRECISION);
    if feeBps >= BPS_PRECISION {
      assert gross * BPS_PRECISION <= n by {
        MulMono(BPS_PRECISION, feeBps, gross);
      }
      CeilGalois(n, BPS_PRECISION, gross - 1);
    } else {
      assert n <= gross * BPS_PRECISION by {
        MulMono(feeBps, BPS_PRECISION, gross);
      }
      CeilGalois(n, BPS_PRECISION, gross);
    }
  }

  lemma TraderShare(net: nat, traderBps: nat)
    ensures Quot(net * traderBps, BPS_PRECISION) == Floor(net * traderBps, BPS_PRECISION) >= 0
  {
    MulMono(0, net, traderBps);
    QuotIsFloor(net * traderBps, BPS_PRECISION);
  }

  lemma ProtocolShare(finalEquity: nat, principal: nat, feeBps: nat, traderBps: nat)
    ensures var s := PreviewSplit(finalEquity, principal, feeBps, traderBps);
      && 0 <= s.protocol <= s.gross
      && s.protocol == PreviewSplit(finalEquity, principal, feeBps, 0).protocol
      && s.gross - s.protocol == Net(finalEquity, principal, feeBps)
      && s.trader == Floor(Net(finalEquity, principal, feeBps) * traderBps, BPS_PRECISION) >= 0
      && (feeBps < BPS_PRECISION ==> s.protocol == Ceil(s.gross * feeBps, BPS_PRECISION))
      && (feeBps >= BPS_PRECISION ==> s.protocol == s.gross)
  {
    var s := PreviewSplit(finalEquity, principal, feeBps, traderBps);
    if s.gross > 0 {
      assert PreviewSplit(finalEquity, principal, feeBps, 0).gross == s.gross;
      CappedFee(s.gross, feeBps);
      TraderShare(s.gross - s.protocol, traderBps);
    }
  }

  /**
   The three shares always sum to the final equity. With a trader's share of at most the whole none
   is negative, and on any profit the investor gets back at least the principal; a loss is theirs alone.
   */
  lemma SplitIsExact(finalEquity: nat, principal: nat, feeBps: nat, traderBps: nat)
    ensures var s := PreviewSplit(finalEquity, principal, feeBps, traderBps);
      && s.investor + s.trader + s.protocol == finalEquity
      && s.gross == (if finalEquity > principal then finalEquity - principal else 0)
      && s.trader >= 0 && s.protocol >= 0
      && (traderBps <= BPS_PRECISION ==> s.investor >= if finalEquity > principal then principal else finalEquity)
      && (finalEquity <= principal ==> s.trader == s.protocol == 0)
  {
    ProtocolShare(finalEquity, principal, feeBps, traderBps);
    if traderBps <= BPS_PRECISION {
      FlooredShareIsLipschitz(0, Net(finalEquity, principal, feeBps), traderBps);
    }
  }

  /** The investor is kept whole on every profit exactly when the trader's share is at most the whole. */
  lemma InvestorKeptWholeIff(principal: nat, feeBps: nat, traderBps: nat)
    ensures (forall e: nat | e > principal :: PreviewSplit(e, principal, feeBps, traderBps).investor >= principal)
      <==> traderBps <= BPS_PRECISION || feeBps >= BPS_PRECISION
  {
    if traderBps <= BPS_PRECISION || feeBps >= BPS_PRECISION {
      forall e: nat | e > principal
        ensures PreviewSplit(e, principal, feeBps, traderBps).investor >= principal
      {
        SplitIsExact(e, principal, feeBps, traderBps);
        ProtocolShare(e, principal, feeBps, traderBps);
        assert 0 * traderBps == 0;
      }
    } else {
      var gross := BPS_PRECISION * BPS_PRECISION;
      var e := principal + gross;
      ProtocolShare(e, principal, feeBps, traderBps);
      var cut := BPS_PRECISION * feeBps;
      CeilGalois(gross * feeBps, BPS_PRECISION, cut);
      CeilGalois(gross * feeBps, BPS_PRECISION, cut - 1);
      assert gross * feeBps == cut * BPS_PRECISION;
      var net := gross - cut;
      assert net == BPS_PRECISION * (BPS_PRECISION - feeBps) > 0;
      MulMono(BPS_PRECISION + 1, traderBps, net);
      assert net * traderBps >= (net + 1) * BPS_PRECISION by {
        assert net >= BPS_PRECISION;
      }
      FloorGalois(net * traderBps, BPS_PRECISION, net + 1);
      assert PreviewSplit(e, principal, feeBps, traderBps).investor < principal;
    }
  }

  /** A share of less than the whole, rounded up, also grows no faster than what it is a share of. */
  lemma CeiledShareIsLipschitz(m: nat, n: nat, bps: nat)
    requires m <= n && bps <= BPS_PRECISION
    ensures 0 <= Ceil(n * bps, BPS_PRECISION) - Ceil(m * bps, BPS_PRECISION) <= n - m
  {
    MulMono(m, n, bps);
    CeilMono(m * bps, n * bps, BPS_PRECISION);
    MulMono(bps, BPS_PRECISION, n - m);
    assert n * bps == m * bps + (n - m) * bps;
    CeilBounds(m * bps, BPS_PRECISION);
    CeilGalois(n * bps, BPS_PRECISION, Ceil(m * bps, BPS_PRECISION) + (n - m));
  }

  lemma NetIsMonotone(low: nat, high: nat, principal: nat, feeBps: nat)
    requires low <= high
    ensures 0 <= Net(low, principal, feeBps) <= Net(high, principal, feeBps)
    ensures PreviewSplit(low, principal, feeBps, 0).protocol <= PreviewSplit(high, principal, feeBps, 0).protocol
  {
    ProtocolShare(low, principal, feeBps, 0);
    ProtocolShare(high, principal, feeBps, 0);
    if low > principal && feeBps < BPS_PRECISION {
      CeiledShareIsLipschitz(low - principal, high - principal, feeBps);
    }
  }

  /** Nobody gains from a lower final equity: all three shares follow it, through every rounding. */
  lemma SplitIsMonotone(low: nat, high: nat, principal: nat, feeBps: nat, traderBps: nat)
    requires low <= high && traderBps <= BPS_PRECISION
    ensures var s := PreviewSplit(low, principal, feeBps, traderBps);
      var t := PreviewSplit(high, principal, feeBps, traderBps);
      s.investor <= t.investor && s.trader <= t.trader && s.protocol <= t.protocol
  {
    NetIsMonotone(low, high, principal, feeBps);
    ProtocolShare(low, principal, feeBps, traderBps);
    ProtocolShare(high, principal, feeBps, traderBps);
    FlooredShareIsLipschitz(Net(low, principal, feeBps), Net(high, principal, feeBps), traderBps);
  }
}
