/**
 The spread filter of results/arbitrage_opp_update.py: a pivoted strike is
 kept only when both bids are positive and both relative bid/ask spreads
 are within the configured maximum.
 */
module Liquidity {
  import opened Seqs
  import opened Quotes

  /** Floor of the spread denominator (np.maximum(ask, 1e-9)). */
  const SpreadFloor: real := 0.000000001

  /** MAX_SPREAD_PCT of the update script. */
  const DefaultMaxSpread: real := 0.25

  /** np.maximum(ask, 1e-9): the larger of the ask and the floor. */
  function SpreadBase(ask: real): (d: real)
    ensures d > 0.0 && d >= ask && d >= SpreadFloor
    ensures d == ask || d == SpreadFloor
  {
    if ask > SpreadFloor then ask else SpreadFloor
  }

  /** Relative bid/ask spread: (ask - bid) / max(ask, 1e-9). */
  function SpreadPct(bid: real, ask: real): real
  {
    (ask - bid) / SpreadBase(ask)
  }

  function CallSpreadPct(sq: StrikeQuote): real { SpreadPct(sq.callBid, sq.callAsk) }

  function PutSpreadPct(sq: StrikeQuote): real { SpreadPct(sq.putBid, sq.putAsk) }

  predicate Liquid(sq: StrikeQuote, maxSpread: real)
  {
    && sq.callBid > 0.0 && sq.putBid > 0.0
    && CallSpreadPct(sq) <= maxSpread
    && PutSpreadPct(sq) <= maxSpread
  }

  /** The strikes of `table` that pass the spread filter, in table order. */
  function LiquidityFilter(table: seq<StrikeQuote>, maxSpread: real): (r: seq<StrikeQuote>)
    ensures forall sq :: sq in r <==> sq in table && Liquid(sq, maxSpread)
    ensures DistinctBy(table, RowKey) ==> DistinctBy(r, RowKey)
  {
    var keep := sq => Liquid(sq, maxSpread);
    assert DistinctBy(table, RowKey) ==> DistinctBy(Filter(table, keep), RowKey) by {
      if DistinctBy(table, RowKey) {
        FilterDistinct(table, keep, RowKey);
      }
    }
    Filter(table, keep)
  }

  /** Re-filtering an already filtered table changes nothing. */
  lemma LiquidityFilterIdempotent(table: seq<StrikeQuote>, maxSpread: real)
    ensures LiquidityFilter(LiquidityFilter(table, maxSpread), maxSpread) == LiquidityFilter(table, maxSpread)
  {
    FilterIdempotent(table, sq => Liquid(sq, maxSpread));
  }

  /** The spread test without the division: a spread fraction of the (floored) ask. */
  lemma SpreadWithinIff(bid: real, ask: real, maxSpread: real)
    ensures SpreadPct(bid, ask) <= maxSpread <==> ask - bid <= maxSpread * SpreadBase(ask)
  {
    var d := SpreadBase(ask);
    assert SpreadPct(bid, ask) * d == ask - bid;
    if SpreadPct(bid, ask) <= maxSpread {
      assert SpreadPct(bid, ask) * d <= maxSpread * d;
    } else {
      assert SpreadPct(bid, ask) * d > maxSpread * d;
    }
  }

  /** On an uncrossed quote with a non-negative bid the spread fraction lies in [0, 1]. */
  lemma SpreadPctBounds(bid: real, ask: real)
    requires 0.0 <= bid <= ask
    ensures 0.0 <= SpreadPct(bid, ask) <= 1.0
    ensures bid > 0.0 ==> SpreadPct(bid, ask) < 1.0
  {
    var d := SpreadBase(ask);
    assert SpreadPct(bid, ask) * d == ask - bid;
    assert ask - bid <= d;
  }

  /** A crossed quote (bid above ask) has a negative spread, so the filter keeps it. */
  lemma CrossedQuotePasses(sq: StrikeQuote, maxSpread: real)
    requires sq.callBid > sq.callAsk > 0.0 && sq.putBid > sq.putAsk > 0.0
    requires maxSpread >= 0.0
    ensures Liquid(sq, maxSpread)
  {
    SpreadWithinIff(sq.callBid, sq.callAsk, maxSpread);
    SpreadWithinIff(sq.putBid, sq.putAsk, maxSpread);
  }
}
