/**
 Box-spread economics for one strike pair K1 < K2 (results/arbitrage_opp_update.py,
 lines 87-110). The long box is long call K1, short call K2, long put K2,
 short put K1; its terminal value is K2 - K1 whatever the underlying does.
 Buying pays the ask on long legs and receives the bid on short legs; the
 short box is the mirror position.
 */
module Boxes {
  import opened Quotes

  /** The economics columns of one scan row. */
  datatype Economics = Economics(payoffPv: real, costBuy: real, profitBuy: real, proceedsSell: real, profitSell: real)

  /** One evaluated strike pair: K1, K2 and their economics. */
  datatype Box = Box(k1: real, k2: real, econ: Economics)

  /** One option position taken now on the quotes of one strike. */
  datatype Leg = Leg(side: Side, long: bool, at: StrikeQuote)

  function LongBox(lo: StrikeQuote, hi: StrikeQuote): seq<Leg>
  {
    [Leg(Call, true, lo), Leg(Call, false, hi), Leg(Put, true, hi), Leg(Put, false, lo)]
  }

  function Flip(leg: Leg): Leg { leg.(long := !leg.long) }

  /** The opposite position: every leg of `legs` taken the other way. */
  function Mirror(legs: seq<Leg>): (m: seq<Leg>)
    ensures |m| == |legs|
    ensures forall i :: 0 <= i < |legs| ==> m[i] == Flip(legs[i])
  {
    if |legs| == 0 then [] else [Flip(legs[0])] + Mirror(legs[1..])
  }

  /** Mirroring twice gives back the original position. */
  lemma MirrorInvolution(legs: seq<Leg>)
    ensures Mirror(Mirror(legs)) == legs
  {
  }

  function ShortBox(lo: StrikeQuote, hi: StrikeQuote): seq<Leg>
  {
    Mirror(LongBox(lo, hi))
  }

  /** Value at expiry of one option when the underlying settles at `s`. */
  function Intrinsic(side: Side, strike: real, s: real): real
  {
    match side
    case Call => if s > strike then s - strike else 0.0
    case Put => if strike > s then strike - s else 0.0
  }

  function LegPayoff(leg: Leg, s: real): real
  {
    var v := Intrinsic(leg.side, leg.at.key.strike, s);
    if leg.long then v else -v
  }

  /** Value at expiry of a whole position. */
  function Payoff(legs: seq<Leg>, s: real): real
  {
    if |legs| == 0 then 0.0 else LegPayoff(legs[0], s) + Payoff(legs[1..], s)
  }

  /** Cash paid now for one leg: the ask when buying, minus the bid when selling. */
  function LegCost(leg: Leg): real
  {
    match leg.side
    case Call => if leg.long then leg.at.callAsk else -leg.at.callBid
    case Put => if leg.long then leg.at.putAsk else -leg.at.putBid
  }

  /** Cash paid now to establish a whole position. */
  function EstablishCost(legs: seq<Leg>): real
  {
    if |legs| == 0 then 0.0 else LegCost(legs[0]) + EstablishCost(legs[1..])
  }

  /** The four-leg sums written out. */
  lemma FourLegs(a: Leg, b: Leg, c: Leg, d: Leg, s: real)
    ensures Payoff([a, b, c, d], s) == LegPayoff(a, s) + LegPayoff(b, s) + LegPayoff(c, s) + LegPayoff(d, s)
    ensures EstablishCost([a, b, c, d]) == LegCost(a) + LegCost(b) + LegCost(c) + LegCost(d)
    ensures Mirror([a, b, c, d]) == [Flip(a), Flip(b), Flip(c), Flip(d)]
  {
    assert [a, b, c, d][1..] == [b, c, d];
    assert [b, c, d][1..] == [c, d];
    assert [c, d][1..] == [d];
    assert [d][1..] == [];
    assert Payoff([d], s) == LegPayoff(d, s);
    assert Payoff([c, d], s) == LegPayoff(c, s) + LegPayoff(d, s);
    assert Payoff([b, c, d], s) == LegPayoff(b, s) + LegPayoff(c, s) + LegPayoff(d, s);
    assert EstablishCost([d]) == LegCost(d);
    assert EstablishCost([c, d]) == LegCost(c) + LegCost(d);
    assert EstablishCost([b, c, d]) == LegCost(b) + LegCost(c) + LegCost(d);
    assert Mirror([d]) == [Flip(d)];
    assert Mirror([c, d]) == [Flip(c), Flip(d)];
    assert Mirror([b, c, d]) == [Flip(b), Flip(c), Flip(d)];
  }

  /** The long box pays K2 - K1 at expiry for every settlement price. */
  lemma LongBoxPayoffFixed(lo: StrikeQuote, hi: StrikeQuote, s: real)
    ensures Payoff(LongBox(lo, hi), s) == hi.key.strike - lo.key.strike
  {
    FourLegs(Leg(Call, true, lo), Leg(Call, false, hi), Leg(Put, true, hi), Leg(Put, false, lo), s);
  }

  /** The short box owes K2 - K1 at expiry for every settlement price. */
  lemma ShortBoxPayoffFixed(lo: StrikeQuote, hi: StrikeQuote, s: real)
    ensures Payoff(ShortBox(lo, hi), s) == lo.key.strike - hi.key.strike
  {
    FourLegs(Leg(Call, true, lo), Leg(Call, false, hi), Leg(Put, true, hi), Leg(Put, false, lo), s);
    var m := [Leg(Call, false, lo), Leg(Call, true, hi), Leg(Put, false, hi), Leg(Put, true, lo)];
    FourLegs(m[0], m[1], m[2], m[3], s);
  }

  /** Sum of the call and put bid/ask spreads at one strike. */
  function QuoteSpread(sq: StrikeQuote): real
  {
    (sq.callAsk - sq.callBid) + (sq.putAsk - sq.putBid)
  }

  /**
   The scan's economics for the pair (lo, hi) under discount factor `disc`:
   cost_buy is the cash to establish the long box, proceeds_sell the cash
   received for the short box, and together the two profits give up exactly
   the four bid/ask spreads.
   */
  function BoxEconomics(lo: StrikeQuote, hi: StrikeQuote, disc: real): (e: Economics)
    ensures e.costBuy == EstablishCost(LongBox(lo, hi))
    ensures e.proceedsSell == -EstablishCost(ShortBox(lo, hi))
    ensures e.profitBuy + e.profitSell == -(QuoteSpread(lo) + QuoteSpread(hi))
  {
    var k1 := lo.key.strike;
    var k2 := hi.key.strike;
    var payoffPv := (k2 - k1) * disc;
    var costBuy := lo.callAsk - hi.callBid + hi.putAsk - lo.putBid;
    var proceedsSell := lo.callBid - hi.callAsk + hi.putBid - lo.putAsk;
    FourLegs(Leg(Call, true, lo), Leg(Call, false, hi), Leg(Put, true, hi), Leg(Put, false, lo), 0.0);
    var m := [Leg(Call, false, lo), Leg(Call, true, hi), Leg(Put, false, hi), Leg(Put, true, lo)];
    FourLegs(m[0], m[1], m[2], m[3], 0.0);
    Economics(payoffPv, costBuy, payoffPv - costBuy, proceedsSell, proceedsSell - payoffPv)
  }

  /**
   For any settlement price: payoff_pv is the discounted value
   of the long box at expiry, profit_buy that value less the cash to buy the
   box, and profit_sell the discounted value of the short box less the cash
   to establish it.
   */
  lemma BoxProfits(lo: StrikeQuote, hi: StrikeQuote, disc: real, s: real)
    ensures BoxEconomics(lo, hi, disc).payoffPv == disc * Payoff(LongBox(lo, hi), s)
    ensures BoxEconomics(lo, hi, disc).profitBuy == disc * Payoff(LongBox(lo, hi), s) - EstablishCost(LongBox(lo, hi))
    ensures BoxEconomics(lo, hi, disc).profitSell == disc * Payoff(ShortBox(lo, hi), s) - EstablishCost(ShortBox(lo, hi))
  {
    LongBoxPayoffFixed(lo, hi, s);
    ShortBoxPayoffFixed(lo, hi, s);
  }

  /** The scan row of the pair (lo, hi): K1, K2 and the pair's economics. */
  function PairBox(lo: StrikeQuote, hi: StrikeQuote, disc: real): Box
  {
    Box(lo.key.strike, hi.key.strike, BoxEconomics(lo, hi, disc))
  }

  /** With uncrossed quotes a pair can never show a buy and a sell profit at once. */
  lemma NoDoubleProfit(lo: StrikeQuote, hi: StrikeQuote, disc: real)
    requires lo.callBid <= lo.callAsk && lo.putBid <= lo.putAsk
    requires hi.callBid <= hi.callAsk && hi.putBid <= hi.putAsk
    ensures BoxEconomics(lo, hi, disc).profitBuy + BoxEconomics(lo, hi, disc).profitSell <= 0.0
  {
  }

  /** What the scan relies on of np.exp: exp(0) = 1 and 0 < exp(x) <= 1 for x <= 0. */
  ghost predicate ExpLike(exp: real -> real)
  {
    && exp(0.0) == 1.0
    && forall x :: x <= 0.0 ==> 0.0 < exp(x) <= 1.0
  }

  /** T = max(days to expiry / 365, 0). */
  function YearsToExpiry(g: GroupKey): (t: real)
    ensures t >= 0.0
    ensures g.expiration >= g.date ==> t * 365.0 == (g.expiration - g.date) as real
    ensures g.expiration <= g.date ==> t == 0.0
  {
    var t := (g.expiration - g.date) as real / 365.0;
    if t >= 0.0 then t else 0.0
  }

  /** disc = exp(-R * T). */
  function DiscountFactor(rate: real, years: real, exp: real -> real): (d: real)
    ensures ExpLike(exp) && rate == 0.0 ==> d == 1.0
    ensures ExpLike(exp) && rate >= 0.0 && years >= 0.0 ==> 0.0 < d <= 1.0
  {
    assert rate >= 0.0 && years >= 0.0 ==> rate * years >= 0.0;
    exp(-rate * years)
  }

  /** With R = 0 the payoff is not discounted: payoff_pv == K2 - K1. */
  lemma ZeroRateUndiscounted(lo: StrikeQuote, hi: StrikeQuote, g: GroupKey, exp: real -> real)
    requires ExpLike(exp)
    ensures BoxEconomics(lo, hi, DiscountFactor(0.0, YearsToExpiry(g), exp)).payoffPv
            == hi.key.strike - lo.key.strike
  {
  }

  /** An expiry on or before the quote date gives T = 0 and so no discounting, whatever the rate. */
  lemma ExpiredUndiscounted(g: GroupKey, rate: real, exp: real -> real)
    requires ExpLike(exp)
    requires g.expiration <= g.date
    ensures DiscountFactor(rate, YearsToExpiry(g), exp) == 1.0
  {
  }

  /** A pair quoted at K1 = 100, K2 = 105 with C1 ask 6.00, C2 bid 1.00, P2 ask 3.50, P1 bid 0.50, undiscounted. */
  lemma WorkedBuyBox(lo: StrikeQuote, hi: StrikeQuote)
    requires lo.key.strike == 100.0 && hi.key.strike == 105.0
    requires lo.callAsk == 6.0 && hi.callBid == 1.0 && hi.putAsk == 3.5 && lo.putBid == 0.5
    ensures BoxEconomics(lo, hi, 1.0).payoffPv == 5.0
    ensures BoxEconomics(lo, hi, 1.0).costBuy == 8.0
    ensures BoxEconomics(lo, hi, 1.0).profitBuy == -3.0
  {
  }
}
