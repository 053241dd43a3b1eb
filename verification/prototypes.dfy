/**
 The two earlier scan scripts, results/arbitrage_opp.py (adjacent strikes
 only) and results/arbitrage_opp_no_adj.py (every strike pair). Both pivot
 the raw quotes keeping the first quote of each side, sort each
 (date, symbol, expiration) group by strike, and emit every pair they visit:
 no sanity or spread filter, no strike cap, no discounting and no profit gate.
 */
module Prototypes {
  import opened Seqs
  import opened Quotes
  import opened Boxes
  import opened Pairs
  import opened Scanner

  /** One output row of the prototypes: the group and the box (no T_years column). */
  datatype Opportunity = Opportunity(key: GroupKey, box: Box)

  /** The undiscounted identities: payoff = K2 - K1, profit_buy = payoff - cost_buy, profit_sell = proceeds_sell - payoff. */
  predicate Undiscounted(b: Box)
  {
    && b.econ.payoffPv == b.k2 - b.k1
    && b.econ.profitBuy == (b.k2 - b.k1) - b.econ.costBuy
    && b.econ.profitSell == b.econ.proceedsSell - (b.k2 - b.k1)
  }

  /** A group sorted by strike; the prototypes never cut it down. */
  function StrikeOrder(rows: seq<StrikeQuote>): (ladder: seq<StrikeQuote>)
    ensures |ladder| == |rows|
    ensures forall x :: x in ladder <==> x in rows
    ensures DistinctBy(rows, StrikeOf) ==> StrictlySortedBy(ladder, StrikeOf)
  {
    LadderMembers(rows, |rows|);
    Ladder(rows, |rows|)
  }

  /** Every undiscounted box of an ascending ladder spans K1 < K2 and keeps the undiscounted identities. */
  lemma ScanUndiscounted(ladder: seq<StrikeQuote>, ps: seq<Pair>)
    requires StrictlySortedBy(ladder, StrikeOf)
    requires PairsBelow(ps, |ladder|)
    ensures forall b :: b in ScanPairs(ladder, ps, 1.0) ==> b.k1 < b.k2 && Undiscounted(b)
  {
    var out := ScanPairs(ladder, ps, 1.0);
    forall b | b in out ensures b.k1 < b.k2 && Undiscounted(b) {
      var k :| 0 <= k < |out| && out[k] == b;
      assert ps[k] in ps;
      assert StrikeOf(ladder[ps[k].i]) < StrikeOf(ladder[ps[k].j]);
    }
  }

  /** The loop of arbitrage_opp.py over one group: (strikes[i], strikes[i + 1]) for every i. */
  function AdjacentRows(rows: seq<StrikeQuote>): (out: seq<Box>)
    requires DistinctBy(rows, StrikeOf)
    ensures |out| == if |rows| == 0 then 0 else |rows| - 1
    ensures forall k :: 0 <= k < |out| ==> out[k] == PairBox(StrikeOrder(rows)[k], StrikeOrder(rows)[k + 1], 1.0)
    ensures forall k :: 0 <= k < |out| - 1 ==> out[k].k2 == out[k + 1].k1
    ensures forall b :: b in out ==> b.k1 < b.k2 && Undiscounted(b)
  {
    var ladder := StrikeOrder(rows);
    AdjacentScan(ladder);
    ScanPairs(ladder, AdjacentPairs(|ladder|), 1.0)
  }

  /** The undiscounted scan of the neighbouring pairs of an ascending ladder: one box per neighbouring pair, chained K2 to K1. */
  lemma AdjacentScan(ladder: seq<StrikeQuote>)
    requires StrictlySortedBy(ladder, StrikeOf)
    ensures |ScanPairs(ladder, AdjacentPairs(|ladder|), 1.0)| == if |ladder| == 0 then 0 else |ladder| - 1
    ensures forall k :: 0 <= k < |ScanPairs(ladder, AdjacentPairs(|ladder|), 1.0)| ==>
              ScanPairs(ladder, AdjacentPairs(|ladder|), 1.0)[k] == PairBox(ladder[k], ladder[k + 1], 1.0)
    ensures forall k :: 0 <= k < |ScanPairs(ladder, AdjacentPairs(|ladder|), 1.0)| - 1 ==>
              ScanPairs(ladder, AdjacentPairs(|ladder|), 1.0)[k].k2 == ScanPairs(ladder, AdjacentPairs(|ladder|), 1.0)[k + 1].k1
    ensures forall b :: b in ScanPairs(ladder, AdjacentPairs(|ladder|), 1.0) ==> b.k1 < b.k2 && Undiscounted(b)
  {
    var ps := AdjacentPairs(|ladder|);
    var out := ScanPairs(ladder, ps, 1.0);
    ScanUndiscounted(ladder, ps);
    forall k | 0 <= k < |out| ensures out[k] == PairBox(ladder[k], ladder[k + 1], 1.0) {
      assert ps[k] == Pair(k, k + 1);
    }
    forall k | 0 <= k < |out| - 1 ensures out[k].k2 == out[k + 1].k1 {
      assert out[k] == PairBox(ladder[k], ladder[k + 1], 1.0);
      assert out[k + 1] == PairBox(ladder[k + 1], ladder[k + 2], 1.0);
    }
  }

  /** Lexicographic order of two rows by (K1, K2). */
  predicate StrikesBefore(a: Box, b: Box)
  {
    a.k1 < b.k1 || (a.k1 == b.k1 && a.k2 < b.k2)
  }

  /** On a strictly ascending ladder, pairs in nested-loop order give boxes in (K1, K2) order. */
  lemma ScanStrikeOrder(ladder: seq<StrikeQuote>, ps: seq<Pair>, disc: real)
    requires StrictlySortedBy(ladder, StrikeOf)
    requires PairsBelow(ps, |ladder|)
    requires forall a, c :: 0 <= a < c < |ps| ==> LexBefore(ps[a], ps[c])
    ensures forall a, c :: 0 <= a < c < |ps| ==>
              StrikesBefore(ScanPairs(ladder, ps, disc)[a], ScanPairs(ladder, ps, disc)[c])
  {
    var out := ScanPairs(ladder, ps, disc);
    forall a, c | 0 <= a < c < |ps| ensures StrikesBefore(out[a], out[c]) {
      var p, q := ps[a], ps[c];
      assert p in ps && q in ps;
      assert LexBefore(p, q);
      if p.i < q.i {
        assert StrikeOf(ladder[p.i]) < StrikeOf(ladder[q.i]);
      } else {
        assert p.j < q.j;
        assert StrikeOf(ladder[p.j]) < StrikeOf(ladder[q.j]);
      }
    }
  }

  /** The nested loops of arbitrage_opp_no_adj.py over one group: every i < j, skipping groups of fewer than 2 strikes. */
  function AllPairsRows(rows: seq<StrikeQuote>): (out: seq<Box>)
    requires DistinctBy(rows, StrikeOf)
    ensures 2 * |out| == |rows| * (|rows| - 1)
    ensures forall a, c :: 0 <= a < c < |out| ==> StrikesBefore(out[a], out[c])
    ensures forall b :: b in out ==> b.k1 < b.k2 && Undiscounted(b)
  {
    var ladder := StrikeOrder(rows);
    if |ladder| < 2 then []
    else
      ScanStrikeOrder(ladder, AllPairs(|ladder|), 1.0);
      ScanUndiscounted(ladder, AllPairs(|ladder|));
      ScanPairs(ladder, AllPairs(|ladder|), 1.0)
  }

  /** With no gate, the adjacent prototype emits exactly the pairs of consecutive strikes of the group. */
  lemma AdjacentRowsComplete(rows: seq<StrikeQuote>, b: Box)
    requires DistinctBy(rows, StrikeOf)
    ensures b in AdjacentRows(rows) <==>
              exists lo, hi :: lo in rows && hi in rows && NextStrike(rows, lo, hi) && b == PairBox(lo, hi, 1.0)
  {
    if b in AdjacentRows(rows) {
      var lo, hi := AdjacentRowsFrom(rows, b);
    }
    if exists lo, hi :: lo in rows && hi in rows && NextStrike(rows, lo, hi) && b == PairBox(lo, hi, 1.0) {
      var lo, hi :| lo in rows && hi in rows && NextStrike(rows, lo, hi) && b == PairBox(lo, hi, 1.0);
      AdjacentRowsReach(rows, lo, hi);
    }
  }

  /** Every row of the adjacent prototype is a pair of consecutive strikes of the group. */
  lemma AdjacentRowsFrom(rows: seq<StrikeQuote>, b: Box) returns (lo: StrikeQuote, hi: StrikeQuote)
    requires DistinctBy(rows, StrikeOf)
    requires b in AdjacentRows(rows)
    ensures lo in rows && hi in rows && NextStrike(rows, lo, hi) && b == PairBox(lo, hi, 1.0)
  {
    var ladder := StrikeOrder(rows);
    var out := AdjacentRows(rows);
    var k :| 0 <= k < |out| && out[k] == b;
    NeighboursOn(ladder, rows, k);
    lo, hi := ladder[k], ladder[k + 1];
  }

  /** Every pair of consecutive strikes of the group is a row of the adjacent prototype. */
  lemma AdjacentRowsReach(rows: seq<StrikeQuote>, lo: StrikeQuote, hi: StrikeQuote)
    requires DistinctBy(rows, StrikeOf)
    requires lo in rows && hi in rows && NextStrike(rows, lo, hi)
    ensures PairBox(lo, hi, 1.0) in AdjacentRows(rows)
  {
    var ladder := StrikeOrder(rows);
    assert ladder == Ladder(rows, |rows|);
    var out := AdjacentRows(rows);
    var a := NeighbourIndex(rows, |rows|, lo, hi);
    assert out[a] == PairBox(ladder[a], ladder[a + 1], 1.0);
    assert out[a] in out;
  }

  /** Every row of the all-pairs prototype is a pair lo < hi of strikes of the group. */
  lemma AllPairsRowsFrom(rows: seq<StrikeQuote>, b: Box)
    requires DistinctBy(rows, StrikeOf)
    requires b in AllPairsRows(rows)
    ensures exists lo, hi :: lo in rows && hi in rows && lo.key.strike < hi.key.strike && b == PairBox(lo, hi, 1.0)
  {
    var ladder := StrikeOrder(rows);
    var ps := AllPairs(|ladder|);
    assert AllPairsRows(rows) == ScanPairs(ladder, ps, 1.0);
    var lo, hi := ScanMembers(ladder, ps, b);
  }

  /** A box of an undiscounted scan over a strictly ascending ladder is built from two of its strikes. */
  lemma ScanMembers(ladder: seq<StrikeQuote>, ps: seq<Pair>, b: Box) returns (lo: StrikeQuote, hi: StrikeQuote)
    requires StrictlySortedBy(ladder, StrikeOf)
    requires PairsBelow(ps, |ladder|)
    requires b in ScanPairs(ladder, ps, 1.0)
    ensures lo in ladder && hi in ladder && lo.key.strike < hi.key.strike && b == PairBox(lo, hi, 1.0)
  {
    var out := ScanPairs(ladder, ps, 1.0);
    var k :| 0 <= k < |out| && out[k] == b;
    assert ps[k] in ps;
    lo, hi := ladder[ps[k].i], ladder[ps[k].j];
  }

  /** Every pair lo < hi of strikes of the group is a row of the all-pairs prototype. */
  lemma AllPairsRowsReach(rows: seq<StrikeQuote>, lo: StrikeQuote, hi: StrikeQuote)
    requires DistinctBy(rows, StrikeOf)
    requires lo in rows && hi in rows && lo.key.strike < hi.key.strike
    ensures PairBox(lo, hi, 1.0) in AllPairsRows(rows)
  {
    var a, c := PairIndex(rows, |rows|, lo, hi);
    var ladder := StrikeOrder(rows);
    var ps := AllPairs(|ladder|);
    var out := ScanPairs(ladder, ps, 1.0);
    assert AllPairsRows(rows) == out;
    assert Pair(a, c) in ps;
    var k :| 0 <= k < |ps| && ps[k] == Pair(a, c);
    assert out[k] == PairBox(lo, hi, 1.0);
  }

  /** With no gate, the all-pairs prototype emits exactly the pairs of strikes K1 < K2 of the group. */
  lemma AllPairsRowsComplete(rows: seq<StrikeQuote>, b: Box)
    requires DistinctBy(rows, StrikeOf)
    ensures b in AllPairsRows(rows) <==>
              exists lo, hi :: lo in rows && hi in rows && lo.key.strike < hi.key.strike && b == PairBox(lo, hi, 1.0)
  {
    if b in AllPairsRows(rows) {
      AllPairsRowsFrom(rows, b);
    }
    if exists lo, hi :: lo in rows && hi in rows && lo.key.strike < hi.key.strike && b == PairBox(lo, hi, 1.0) {
      var lo, hi :| lo in rows && hi in rows && lo.key.strike < hi.key.strike && b == PairBox(lo, hi, 1.0);
      AllPairsRowsReach(rows, lo, hi);
    }
  }

  /** The adjacent prototype's rows are the all-pairs prototype's rows of neighbouring strikes, in the same order. */
  lemma AdjacentRowsAreRestricted(rows: seq<StrikeQuote>)
    requires DistinctBy(rows, StrikeOf)
    ensures AdjacentRows(rows) == Filter(AllPairsRows(rows), NeighbourOf(StrikeOrder(rows)))
  {
    var ladder := StrikeOrder(rows);
    AdjacentScanIsRestricted(ladder, 1.0);
  }

  function ScanRows(rows: seq<StrikeQuote>, mode: Mode): seq<Box>
    requires DistinctBy(rows, StrikeOf)
  {
    match mode
    case AdjacentOnly => AdjacentRows(rows)
    case EveryPair => AllPairsRows(rows)
  }

  /** One row per box, in box order, each tagged with the group. */
  function TagGroup(g: GroupKey, boxes: seq<Box>): (out: seq<Opportunity>)
    ensures |out| == |boxes|
    ensures forall k :: 0 <= k < |out| ==> out[k] == Opportunity(g, boxes[k])
    ensures forall o :: o in out <==> exists b :: b in boxes && o == Opportunity(g, b)
    ensures NoDuplicates(boxes) ==> NoDuplicates(out)
  {
    if |boxes| == 0 then []
    else
      assert boxes == [boxes[0]] + boxes[1..];
      [Opportunity(g, boxes[0])] + TagGroup(g, boxes[1..])
  }

  /** `b` is a row the prototype loop writes for group `g` of `table`. */
  ghost predicate Yields(table: seq<StrikeQuote>, g: GroupKey, mode: Mode, b: Box)
    requires DistinctBy(table, RowKey)
  {
    b in ScanRows(GroupRows(table, g), mode)
  }

  /** The scan of each listed group, concatenated in list order. */
  function Collect(table: seq<StrikeQuote>, gs: seq<GroupKey>, mode: Mode): (out: seq<Opportunity>)
    requires DistinctBy(table, RowKey)
    ensures forall o :: o in out ==> o.key in gs && Yields(table, o.key, mode, o.box)
    ensures forall g, b :: g in gs && Yields(table, g, mode, b) ==> Opportunity(g, b) in out
    ensures NoDuplicates(gs) ==> NoDuplicates(out)
  {
    if |gs| == 0 then []
    else
      var rest := Collect(table, gs[1..], mode);
      CollectStep(table, gs, mode, rest);
      TagGroup(gs[0], ScanRows(GroupRows(table, gs[0]), mode)) + rest
  }

  /** One step of the prototypes' loop: the first group's rows go in front of the later groups' rows. */
  lemma CollectStep(table: seq<StrikeQuote>, gs: seq<GroupKey>, mode: Mode, rest: seq<Opportunity>)
    requires DistinctBy(table, RowKey) && |gs| > 0
    requires forall o :: o in rest ==> o.key in gs[1..] && Yields(table, o.key, mode, o.box)
    requires forall g, b :: g in gs[1..] && Yields(table, g, mode, b) ==> Opportunity(g, b) in rest
    requires NoDuplicates(gs[1..]) ==> NoDuplicates(rest)
    ensures forall o :: o in TagGroup(gs[0], ScanRows(GroupRows(table, gs[0]), mode)) + rest ==>
              o.key in gs && Yields(table, o.key, mode, o.box)
    ensures forall g, b :: g in gs && Yields(table, g, mode, b) ==>
              Opportunity(g, b) in TagGroup(gs[0], ScanRows(GroupRows(table, gs[0]), mode)) + rest
    ensures NoDuplicates(gs) ==> NoDuplicates(TagGroup(gs[0], ScanRows(GroupRows(table, gs[0]), mode)) + rest)
  {
    assert gs == [gs[0]] + gs[1..];
    var g := gs[0];
    var boxes := ScanRows(GroupRows(table, g), mode);
    TagStep(g, boxes, rest);
    if NoDuplicates(gs) {
      assert g !in gs[1..];
      TagsAhead(g, boxes, rest, gs[1..], table, mode);
    }
  }

  /** A row of a group's tagged boxes followed by `rest` is a tagged box or a row of `rest`, and every box is tagged. */
  lemma TagStep(g: GroupKey, boxes: seq<Box>, rest: seq<Opportunity>)
    ensures forall o :: o in TagGroup(g, boxes) + rest ==> o in rest || (o.key == g && o.box in boxes)
    ensures forall b :: b in boxes ==> Opportunity(g, b) in TagGroup(g, boxes) + rest
  {
  }

  /** A group's rows in front of the later groups' rows repeat nothing. */
  lemma TagsAhead(g: GroupKey, boxes: seq<Box>, rest: seq<Opportunity>, later: seq<GroupKey>, table: seq<StrikeQuote>, mode: Mode)
    requires DistinctBy(table, RowKey)
    requires boxes == ScanRows(GroupRows(table, g), mode)
    requires NoDuplicates(rest) && g !in later
    requires forall o :: o in rest ==> o.key in later
    ensures NoDuplicates(TagGroup(g, boxes) + rest)
  {
    ScanRowsOnce(GroupRows(table, g), mode);
    NoDuplicatesConcat(TagGroup(g, boxes), rest);
  }

  /** Each prototype loop visits every pair of its group once, so no row of a group repeats. */
  lemma ScanRowsOnce(rows: seq<StrikeQuote>, mode: Mode)
    requires DistinctBy(rows, StrikeOf)
    ensures NoDuplicates(ScanRows(rows, mode))
  {
    var ladder := StrikeOrder(rows);
    PairsOnce(|ladder|);
    match mode
    case AdjacentOnly =>
      ScanPairsDistinct(ladder, AdjacentPairs(|ladder|), 1.0);
    case EveryPair =>
      if |ladder| >= 2 {
        ScanPairsDistinct(ladder, AllPairs(|ladder|), 1.0);
      }
  }

  /** A prototype row is a pair lo < hi of strikes of its group, undiscounted. */
  lemma OpportunitySound(table: seq<StrikeQuote>, gs: seq<GroupKey>, mode: Mode, o: Opportunity)
    requires DistinctBy(table, RowKey)
    requires o in Collect(table, gs, mode)
    ensures o.box.k1 < o.box.k2 && Undiscounted(o.box)
    ensures exists lo, hi :: lo in table && hi in table && lo.key.group == o.key && hi.key.group == o.key
              && lo.key.strike < hi.key.strike && o.box == PairBox(lo, hi, 1.0)
  {
    var rows := GroupRows(table, o.key);
    match mode
    case AdjacentOnly =>
      AdjacentRowsComplete(rows, o.box);
    case EveryPair =>
      AllPairsRowsComplete(rows, o.box);
  }

  /** The pivot of both prototypes: first quote of each side, strikes with both sides. */
  function PrototypeTable(raw: seq<Quote>): (t: seq<StrikeQuote>)
    ensures DistinctBy(t, RowKey)
    ensures forall k :: k in KeysOf(t, RowKey) <==>
              SideKey(k, Call) in KeysOf(raw, QuoteKey) && SideKey(k, Put) in KeysOf(raw, QuoteKey)
    ensures forall sq :: sq in t ==>
              && IsFirstSeen(raw, Quote(SideKey(sq.key, Call), sq.callBid, sq.callAsk))
              && IsFirstSeen(raw, Quote(SideKey(sq.key, Put), sq.putBid, sq.putAsk))
  {
    FirstQuoteTable(raw)
  }

  /**
   arbitrage_opp.py: one row per pair of consecutive strikes of every group,
   and nothing else.
   */
  function AdjacentPrototype(raw: seq<Quote>): (out: seq<Opportunity>)
    ensures forall o :: o in out ==> o.box.k1 < o.box.k2 && Undiscounted(o.box)
    ensures forall o :: o in out ==>
              exists lo, hi :: lo in PrototypeTable(raw) && hi in PrototypeTable(raw)
                && lo.key.group == o.key && hi.key.group == o.key
                && NextStrike(GroupRows(PrototypeTable(raw), o.key), lo, hi) && o.box == PairBox(lo, hi, 1.0)
    ensures forall lo, hi :: lo in PrototypeTable(raw) && hi in PrototypeTable(raw) && lo.key.group == hi.key.group
              && NextStrike(GroupRows(PrototypeTable(raw), lo.key.group), lo, hi)
              ==> Opportunity(lo.key.group, PairBox(lo, hi, 1.0)) in out
    ensures NoDuplicates(out)
  {
    var table := PrototypeTable(raw);
    AdjacentCollected(table);
    Collect(table, GroupKeys(table), AdjacentOnly)
  }

  /** The adjacent collection over a uniquely keyed table: sound and complete for consecutive strikes of a group. */
  lemma AdjacentCollected(table: seq<StrikeQuote>)
    requires DistinctBy(table, RowKey)
    ensures forall o :: o in Collect(table, GroupKeys(table), AdjacentOnly) ==>
              && o.box.k1 < o.box.k2 && Undiscounted(o.box)
              && exists lo, hi :: lo in table && hi in table && lo.key.group == o.key && hi.key.group == o.key
                   && NextStrike(GroupRows(table, o.key), lo, hi) && o.box == PairBox(lo, hi, 1.0)
    ensures forall lo, hi :: lo in table && hi in table && lo.key.group == hi.key.group
              && NextStrike(GroupRows(table, lo.key.group), lo, hi)
              ==> Opportunity(lo.key.group, PairBox(lo, hi, 1.0)) in Collect(table, GroupKeys(table), AdjacentOnly)
  {
    var out := Collect(table, GroupKeys(table), AdjacentOnly);
    forall o | o in out
      ensures o.box.k1 < o.box.k2 && Undiscounted(o.box)
      ensures exists lo, hi :: lo in table && hi in table && lo.key.group == o.key && hi.key.group == o.key
                && NextStrike(GroupRows(table, o.key), lo, hi) && o.box == PairBox(lo, hi, 1.0)
    {
      OpportunitySound(table, GroupKeys(table), AdjacentOnly, o);
      var lo, hi := AdjacentRowsFrom(GroupRows(table, o.key), o.box);
    }
    forall lo, hi | lo in table && hi in table && lo.key.group == hi.key.group
              && NextStrike(GroupRows(table, lo.key.group), lo, hi)
      ensures Opportunity(lo.key.group, PairBox(lo, hi, 1.0)) in out
    {
      var g := lo.key.group;
      assert g in KeysOf(table, GroupOf) by {
        assert GroupOf(lo) == g;
      }
      AdjacentRowsReach(GroupRows(table, g), lo, hi);
    }
  }

  /** The all-pairs collection over a uniquely keyed table: sound and complete for pairs lo < hi of a group. */
  lemma AllPairsCollected(table: seq<StrikeQuote>)
    requires DistinctBy(table, RowKey)
    ensures forall o :: o in Collect(table, GroupKeys(table), EveryPair) ==>
              && o.box.k1 < o.box.k2 && Undiscounted(o.box)
              && exists lo, hi :: lo in table && hi in table && lo.key.group == o.key && hi.key.group == o.key
                   && o.box == PairBox(lo, hi, 1.0)
    ensures forall lo, hi :: lo in table && hi in table && lo.key.group == hi.key.group && lo.key.strike < hi.key.strike
              ==> Opportunity(lo.key.group, PairBox(lo, hi, 1.0)) in Collect(table, GroupKeys(table), EveryPair)
  {
    var out := Collect(table, GroupKeys(table), EveryPair);
    forall o | o in out
      ensures o.box.k1 < o.box.k2 && Undiscounted(o.box)
      ensures exists lo, hi :: lo in table && hi in table && lo.key.group == o.key && hi.key.group == o.key
                && o.box == PairBox(lo, hi, 1.0)
    {
      OpportunitySound(table, GroupKeys(table), EveryPair, o);
    }
    forall lo, hi | lo in table && hi in table && lo.key.group == hi.key.group && lo.key.strike < hi.key.strike
      ensures Opportunity(lo.key.group, PairBox(lo, hi, 1.0)) in out
    {
      var g := lo.key.group;
      assert g in KeysOf(table, GroupOf) by {
        assert GroupOf(lo) == g;
      }
      AllPairsRowsReach(GroupRows(table, g), lo, hi);
    }
  }

  /**
   arbitrage_opp_no_adj.py: one row per pair of strikes K1 < K2 of every
   group, and nothing else.
   */
  function AllPairsPrototype(raw: seq<Quote>): (out: seq<Opportunity>)
    ensures forall o :: o in out ==> o.box.k1 < o.box.k2 && Undiscounted(o.box)
    ensures forall o :: o in out ==>
              exists lo, hi :: lo in PrototypeTable(raw) && hi in PrototypeTable(raw)
                && lo.key.group == o.key && hi.key.group == o.key && o.box == PairBox(lo, hi, 1.0)
    ensures forall lo, hi :: lo in PrototypeTable(raw) && hi in PrototypeTable(raw) && lo.key.group == hi.key.group
              && lo.key.strike < hi.key.strike
              ==> Opportunity(lo.key.group, PairBox(lo, hi, 1.0)) in out
    ensures NoDuplicates(out)
  {
    var table := PrototypeTable(raw);
    AllPairsCollected(table);
    Collect(table, GroupKeys(table), EveryPair)
  }
}
