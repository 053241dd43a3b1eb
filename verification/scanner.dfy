/**
 The box scanner of results/arbitrage_opp_update.py (scan_boxes and run):
 each (date, symbol, expiration) group of the liquid quote table is sorted
 by strike, cut down to the tightest-spread strikes when it is too large,
 and scanned pair by pair; a pair is emitted when either its buy or its sell
 profit reaches MIN_PROFIT.
 */
module Scanner {
  import opened Seqs
  import opened Quotes
  import opened Liquidity
  import opened Boxes
  import opened Pairs

  /** The `mode` argument: "adjacent", or any other value for all pairs. */
  datatype Mode = AdjacentOnly | EveryPair

  datatype Config = Config(minProfit: real, maxSpread: real, maxStrikes: nat, rate: real)

  /** MIN_PROFIT, MAX_SPREAD_PCT, MAX_STRIKES_PER_EXP and R of the update script. */
  const DefaultConfig: Config := Config(0.25, DefaultMaxSpread, 250, 0.0)

  /** The emission gate. */
  predicate Gate(e: Economics, minProfit: real)
  {
    e.profitBuy >= minProfit || e.profitSell >= minProfit
  }

  function GateOf(minProfit: real): Box -> bool
  {
    (b: Box) => Gate(b.econ, minProfit)
  }

  /** spread_score: the sum of the two relative spreads. */
  function SpreadScore(sq: StrikeQuote): real
  {
    CallSpreadPct(sq) + PutSpreadPct(sq)
  }

  /**
   The `cap` rows with the smallest spread score (sort_values("spread_score").head(cap));
   which of several equally scored rows is kept is not promised.
   */
  function Downselect(rows: seq<StrikeQuote>, cap: nat): (kept: seq<StrikeQuote>)
    ensures |kept| == Min(cap, |rows|)
    ensures multiset(kept) <= multiset(rows)
    ensures forall x, y :: x in kept && y in multiset(rows) - multiset(kept) ==> SpreadScore(x) <= SpreadScore(y)
  {
    var ranked := SortBy(rows, SpreadScore);
    var m := Min(cap, |rows|);
    SortedSplit(ranked, rows, SpreadScore, m);
    ranked[..m]
  }

  /**
   The strikes a group is scanned over, ascending: all of them, or the
   MAX_STRIKES_PER_EXP tightest-spread ones when the group has more.
   */
  function Ladder(rows: seq<StrikeQuote>, cap: nat): (ladder: seq<StrikeQuote>)
    ensures |ladder| == Min(cap, |rows|)
    ensures multiset(ladder) <= multiset(rows)
    ensures |rows| <= cap ==> multiset(ladder) == multiset(rows)
    ensures |rows| > cap ==>
              forall x, y :: x in ladder && y in multiset(rows) - multiset(ladder) ==> SpreadScore(x) <= SpreadScore(y)
    ensures SortedBy(ladder, StrikeOf)
    ensures DistinctBy(rows, StrikeOf) ==> StrictlySortedBy(ladder, StrikeOf)
  {
    var sel := if |rows| > cap then Downselect(rows, cap) else rows;
    var ladder := SortBy(sel, StrikeOf);
    assert forall x :: x in ladder <==> x in sel by {
      SortedByMembers(ladder, sel);
    }
    assert DistinctBy(rows, StrikeOf) ==> StrictlySortedBy(ladder, StrikeOf) by {
      if DistinctBy(rows, StrikeOf) {
        DistinctSub(rows, sel, StrikeOf);
        SortStrict(sel, StrikeOf);
      }
    }
    ladder
  }

  /** The box of pair p = (i, j) of the ladder: K1 = strikes[i], K2 = strikes[j]. */
  function BoxAt(ladder: seq<StrikeQuote>, p: Pair, disc: real): Box
    requires p.i < p.j < |ladder|
  {
    PairBox(ladder[p.i], ladder[p.j], disc)
  }

  /** Every evaluated pair's box, in pair order, before the gate. */
  function ScanPairs(ladder: seq<StrikeQuote>, pairs: seq<Pair>, disc: real): (boxes: seq<Box>)
    requires PairsBelow(pairs, |ladder|)
    ensures |boxes| == |pairs|
    ensures forall k :: 0 <= k < |pairs| ==> boxes[k] == BoxAt(ladder, pairs[k], disc)
  {
    if |pairs| == 0 then []
    else
      assert pairs[0] in pairs;
      [BoxAt(ladder, pairs[0], disc)] + ScanPairs(ladder, pairs[1..], disc)
  }

  /** The scan loop with the gate fused in, as the source writes it. */
  function EmitGated(ladder: seq<StrikeQuote>, pairs: seq<Pair>, disc: real, minProfit: real): (out: seq<Box>)
    requires PairsBelow(pairs, |ladder|)
    ensures |out| <= |pairs|
    ensures forall b :: b in out ==>
              Gate(b.econ, minProfit) && exists k :: 0 <= k < |pairs| && b == BoxAt(ladder, pairs[k], disc)
    ensures forall k :: 0 <= k < |pairs| && Gate(BoxAt(ladder, pairs[k], disc).econ, minProfit) ==>
              BoxAt(ladder, pairs[k], disc) in out
  {
    if |pairs| == 0 then []
    else
      assert pairs[0] in pairs;
      var b := BoxAt(ladder, pairs[0], disc);
      var rest := EmitGated(ladder, pairs[1..], disc, minProfit);
      EmitStep(ladder, pairs, disc, minProfit, rest);
      if Gate(b.econ, minProfit) then [b] + rest else rest
  }

  /** One step of the scan loop: the gated box of the first pair goes in front of the rest's output. */
  lemma EmitStep(ladder: seq<StrikeQuote>, pairs: seq<Pair>, disc: real, minProfit: real, rest: seq<Box>)
    requires PairsBelow(pairs, |ladder|) && |pairs| > 0 && PairsBelow(pairs[1..], |ladder|)
    requires forall b :: b in rest ==>
               Gate(b.econ, minProfit) && exists k :: 0 <= k < |pairs[1..]| && b == BoxAt(ladder, pairs[1..][k], disc)
    requires forall k :: 0 <= k < |pairs[1..]| && Gate(BoxAt(ladder, pairs[1..][k], disc).econ, minProfit) ==>
               BoxAt(ladder, pairs[1..][k], disc) in rest
    ensures pairs[0] in pairs
    ensures forall b :: b in (if Gate(BoxAt(ladder, pairs[0], disc).econ, minProfit) then [BoxAt(ladder, pairs[0], disc)] + rest else rest) ==>
              Gate(b.econ, minProfit) && exists k :: 0 <= k < |pairs| && b == BoxAt(ladder, pairs[k], disc)
    ensures forall k :: 0 <= k < |pairs| && Gate(BoxAt(ladder, pairs[k], disc).econ, minProfit) ==>
              BoxAt(ladder, pairs[k], disc) in (if Gate(BoxAt(ladder, pairs[0], disc).econ, minProfit) then [BoxAt(ladder, pairs[0], disc)] + rest else rest)
  {
    assert pairs[0] in pairs;
    var b := BoxAt(ladder, pairs[0], disc);
    var out := if Gate(b.econ, minProfit) then [b] + rest else rest;
    forall c | c in out ensures Gate(c.econ, minProfit) && exists k :: 0 <= k < |pairs| && c == BoxAt(ladder, pairs[k], disc) {
      if c in rest {
        var k :| 0 <= k < |pairs[1..]| && c == BoxAt(ladder, pairs[1..][k], disc);
        assert pairs[1..][k] == pairs[k + 1];
      } else {
        assert c == BoxAt(ladder, pairs[0], disc);
      }
    }
    forall k | 0 <= k < |pairs| && Gate(BoxAt(ladder, pairs[k], disc).econ, minProfit)
      ensures BoxAt(ladder, pairs[k], disc) in out
    {
      if k > 0 {
        assert pairs[k] == pairs[1..][k - 1];
      }
    }
  }

  /** Fusing the gate into the loop gives exactly the gated list of all evaluated boxes. */
  lemma {:induction false} GateFusion(ladder: seq<StrikeQuote>, pairs: seq<Pair>, disc: real, minProfit: real)
    requires PairsBelow(pairs, |ladder|)
    ensures EmitGated(ladder, pairs, disc, minProfit) == Filter(ScanPairs(ladder, pairs, disc), GateOf(minProfit))
  {
    if |pairs| > 0 {
      assert pairs[0] in pairs;
      var boxes := ScanPairs(ladder, pairs, disc);
      assert boxes[1..] == ScanPairs(ladder, pairs[1..], disc);
      GateFusion(ladder, pairs[1..], disc, minProfit);
    }
  }

  lemma AdjacentCountBound(n: nat)
    requires n >= 1
    ensures 2 * (n - 1) <= n * (n - 1)
  {
    assert n * (n - 1) - 2 * (n - 1) == (n - 1) * (n - 2);
    if n >= 2 {
      assert (n - 1) * (n - 2) >= 0;
    }
  }

  /** The pair list of a mode over a ladder of n strikes, with its size. */
  function PairsFor(mode: Mode, n: nat): (ps: seq<Pair>)
    ensures PairsBelow(ps, n)
    ensures 2 * |ps| <= n * (n - 1)
    ensures mode == AdjacentOnly && n >= 1 ==> |ps| == n - 1
  {
    match mode
    case AdjacentOnly =>
      if n >= 1 then AdjacentCountBound(n); AdjacentPairs(n) else AdjacentPairs(n)
    case EveryPair => AllPairs(n)
  }

  /** The pairs scan_boxes evaluates for a group: none when fewer than 2 strikes remain. */
  function EvaluatedPairs(rows: seq<StrikeQuote>, mode: Mode, cap: nat): (ps: seq<Pair>)
    ensures PairsBelow(ps, Min(cap, |rows|))
    ensures 2 * |ps| <= Min(cap, |rows|) * (Min(cap, |rows|) - 1)
    ensures mode == AdjacentOnly && Min(cap, |rows|) >= 2 ==> |ps| == Min(cap, |rows|) - 1
    ensures Min(cap, |rows|) < 2 ==> ps == []
  {
    var n := Min(cap, |rows|);
    if n < 2 then [] else PairsFor(mode, n)
  }

  /** Every strike of the ladder is a strike of the group; with no cut, every strike of the group is on it. */
  lemma LadderMembers(rows: seq<StrikeQuote>, cap: nat)
    ensures forall x :: x in Ladder(rows, cap) ==> x in rows
    ensures |rows| <= cap ==> forall x :: x in rows ==> x in Ladder(rows, cap)
  {
    var ladder := Ladder(rows, cap);
    forall x | x in ladder ensures x in rows {
      assert x in multiset(ladder);
    }
    if |rows| <= cap {
      SortedByMembers(ladder, rows);
    }
  }

  /** An emitted box is the box of a ladder pair (i, j) with i < j that passes the gate. */
  lemma EmittedFromPair(ladder: seq<StrikeQuote>, pairs: seq<Pair>, disc: real, minProfit: real, b: Box)
    requires PairsBelow(pairs, |ladder|)
    requires StrictlySortedBy(ladder, StrikeOf)
    requires b in EmitGated(ladder, pairs, disc, minProfit)
    ensures b.k1 < b.k2
    ensures exists lo, hi :: lo in ladder && hi in ladder && b == PairBox(lo, hi, disc)
  {
    var k :| 0 <= k < |pairs| && b == BoxAt(ladder, pairs[k], disc);
    var p := pairs[k];
    assert p in pairs;
    assert StrikeOf(ladder[p.i]) < StrikeOf(ladder[p.j]);
    assert ladder[p.i] in ladder && ladder[p.j] in ladder;
  }

  /** scan_boxes for one group whose strikes are unique, with discount factor `disc`. */
  function ScanBoxes(rows: seq<StrikeQuote>, mode: Mode, cfg: Config, disc: real): (out: seq<Box>)
    requires DistinctBy(rows, StrikeOf)
    ensures |out| <= |EvaluatedPairs(rows, mode, cfg.maxStrikes)|
    ensures forall b :: b in out ==> b.k1 < b.k2 && Gate(b.econ, cfg.minProfit)
  {
    var ladder := Ladder(rows, cfg.maxStrikes);
    var out := EmitGated(ladder, EvaluatedPairs(rows, mode, cfg.maxStrikes), disc, cfg.minProfit);
    forall b | b in out ensures b.k1 < b.k2 {
      EmittedFromPair(ladder, EvaluatedPairs(rows, mode, cfg.maxStrikes), disc, cfg.minProfit, b);
    }
    out
  }

  /** Every emitted box is built from two strikes of its group. */
  lemma ScanFromRows(rows: seq<StrikeQuote>, mode: Mode, cfg: Config, disc: real, b: Box) returns (lo: StrikeQuote, hi: StrikeQuote)
    requires DistinctBy(rows, StrikeOf)
    requires b in ScanBoxes(rows, mode, cfg, disc)
    ensures lo in rows && hi in rows && lo.key.strike < hi.key.strike && b == PairBox(lo, hi, disc)
  {
    var ladder := Ladder(rows, cfg.maxStrikes);
    var k := ScanFrom(rows, mode, cfg, disc, b);
    var p := EvaluatedPairs(rows, mode, cfg.maxStrikes)[k];
    assert p in EvaluatedPairs(rows, mode, cfg.maxStrikes);
    LadderMembers(rows, cfg.maxStrikes);
    assert ladder[p.i] in ladder && ladder[p.j] in ladder;
    assert StrikeOf(ladder[p.i]) < StrikeOf(ladder[p.j]);
    lo, hi := ladder[p.i], ladder[p.j];
  }

  /** Position of a strike of the group on the uncut ladder. */
  lemma LadderIndex(rows: seq<StrikeQuote>, cap: nat, x: StrikeQuote) returns (a: nat)
    requires |rows| <= cap && x in rows
    ensures a < |Ladder(rows, cap)| && Ladder(rows, cap)[a] == x
  {
    LadderMembers(rows, cap);
    var ladder := Ladder(rows, cap);
    assert x in ladder;
    a :| 0 <= a < |ladder| && ladder[a] == x;
  }

  /** Positions of two strikes lo < hi of the group on its uncut ladder. */
  lemma PairIndex(rows: seq<StrikeQuote>, cap: nat, lo: StrikeQuote, hi: StrikeQuote) returns (a: nat, c: nat)
    requires DistinctBy(rows, StrikeOf)
    requires |rows| <= cap
    requires lo in rows && hi in rows && lo.key.strike < hi.key.strike
    ensures a < c < |Ladder(rows, cap)| && Ladder(rows, cap)[a] == lo && Ladder(rows, cap)[c] == hi
  {
    a := LadderIndex(rows, cap, lo);
    c := LadderIndex(rows, cap, hi);
    StrictIndexOrder(Ladder(rows, cap), StrikeOf, a, c);
  }

  /** On the uncut ladder of a uniquely struck group, any gated pair lo < hi is emitted in all-pairs mode. */
  lemma AllPairsReach(rows: seq<StrikeQuote>, cfg: Config, disc: real, lo: StrikeQuote, hi: StrikeQuote)
    requires DistinctBy(rows, StrikeOf)
    requires |rows| <= cfg.maxStrikes
    requires lo in rows && hi in rows && lo.key.strike < hi.key.strike
    requires Gate(PairBox(lo, hi, disc).econ, cfg.minProfit)
    ensures PairBox(lo, hi, disc) in ScanBoxes(rows, EveryPair, cfg, disc)
  {
    var ladder := Ladder(rows, cfg.maxStrikes);
    var a, c := PairIndex(rows, cfg.maxStrikes, lo, hi);
    var ps := EvaluatedPairs(rows, EveryPair, cfg.maxStrikes);
    assert ps == AllPairs(|ladder|);
    assert Pair(a, c) in ps;
    assert PairBox(lo, hi, disc) == BoxAt(ladder, Pair(a, c), disc);
  }

  /** With every strike kept, all-pairs mode emits exactly the gated pairs of strikes K1 < K2. */
  lemma AllPairsScanComplete(rows: seq<StrikeQuote>, cfg: Config, disc: real, b: Box)
    requires DistinctBy(rows, StrikeOf)
    requires |rows| <= cfg.maxStrikes
    ensures b in ScanBoxes(rows, EveryPair, cfg, disc) <==>
              && Gate(b.econ, cfg.minProfit)
              && exists lo, hi :: lo in rows && hi in rows && lo.key.strike < hi.key.strike && b == PairBox(lo, hi, disc)
  {
    if b in ScanBoxes(rows, EveryPair, cfg, disc) {
      var lo, hi := ScanFromRows(rows, EveryPair, cfg, disc, b);
    }
    if Gate(b.econ, cfg.minProfit)
       && exists lo, hi :: lo in rows && hi in rows && lo.key.strike < hi.key.strike && b == PairBox(lo, hi, disc)
    {
      var lo, hi :| lo in rows && hi in rows && lo.key.strike < hi.key.strike && b == PairBox(lo, hi, disc);
      AllPairsReach(rows, cfg, disc, lo, hi);
    }
  }

  /** A strike next to `lo` in `rows`: higher, with no strike of `rows` in between. */
  ghost predicate NextStrike(rows: seq<StrikeQuote>, lo: StrikeQuote, hi: StrikeQuote)
  {
    && lo.key.strike < hi.key.strike
    && forall z :: z in rows ==> !(lo.key.strike < z.key.strike < hi.key.strike)
  }

  /** Neighbours on the uncut ladder are consecutive strikes of the group. */
  lemma LadderNeighbours(rows: seq<StrikeQuote>, cap: nat, k: nat)
    requires DistinctBy(rows, StrikeOf)
    requires |rows| <= cap && k + 1 < |Ladder(rows, cap)|
    ensures Ladder(rows, cap)[k] in rows && Ladder(rows, cap)[k + 1] in rows
    ensures NextStrike(rows, Ladder(rows, cap)[k], Ladder(rows, cap)[k + 1])
  {
    LadderMembers(rows, cap);
    NeighboursOn(Ladder(rows, cap), rows, k);
  }

  /** On a strictly ascending ladder holding exactly the strikes of `rows`, side-by-side entries are consecutive strikes. */
  lemma NeighboursOn(ladder: seq<StrikeQuote>, rows: seq<StrikeQuote>, k: nat)
    requires StrictlySortedBy(ladder, StrikeOf)
    requires forall x :: x in ladder <==> x in rows
    requires k + 1 < |ladder|
    ensures ladder[k] in rows && ladder[k + 1] in rows && NextStrike(rows, ladder[k], ladder[k + 1])
  {
    assert ladder[k] in ladder && ladder[k + 1] in ladder;
    var lo, hi := ladder[k], ladder[k + 1];
    forall z | z in rows ensures !(lo.key.strike < z.key.strike < hi.key.strike) {
      assert z in ladder;
      var c :| 0 <= c < |ladder| && ladder[c] == z;
      StrictNoneBetween(ladder, StrikeOf, k, c);
    }
  }

  /** In adjacent mode every emitted box is a pair of consecutive strikes of the group. */
  lemma AdjacentFromNeighbours(rows: seq<StrikeQuote>, cfg: Config, disc: real, b: Box) returns (lo: StrikeQuote, hi: StrikeQuote)
    requires DistinctBy(rows, StrikeOf)
    requires |rows| <= cfg.maxStrikes
    requires b in ScanBoxes(rows, AdjacentOnly, cfg, disc)
    ensures lo in rows && hi in rows && NextStrike(rows, lo, hi) && b == PairBox(lo, hi, disc)
  {
    var k := ScanFrom(rows, AdjacentOnly, cfg, disc, b);
    var ps := AdjacentEvaluated(rows, cfg.maxStrikes);
    LadderMembers(rows, cfg.maxStrikes);
    lo, hi := AdjacentPick(Ladder(rows, cfg.maxStrikes), rows, k, disc, b);
  }

  /** The box of the k-th adjacent pair of a strictly ascending ladder of `rows` is a pair of consecutive strikes. */
  lemma AdjacentPick(ladder: seq<StrikeQuote>, rows: seq<StrikeQuote>, k: nat, disc: real, b: Box)
      returns (lo: StrikeQuote, hi: StrikeQuote)
    requires StrictlySortedBy(ladder, StrikeOf)
    requires forall x :: x in ladder <==> x in rows
    requires k < |AdjacentPairs(|ladder|)| && b == BoxAt(ladder, AdjacentPairs(|ladder|)[k], disc)
    ensures lo in rows && hi in rows && NextStrike(rows, lo, hi) && b == PairBox(lo, hi, disc)
  {
    NeighboursOn(ladder, rows, k);
    lo, hi := ladder[k], ladder[k + 1];
  }

  /** The strikes (K1, K2) a box spans. */
  function Span(b: Box): (real, real) { (b.k1, b.k2) }

  /** On a strictly ascending ladder, distinct pairs give boxes over distinct strikes. */
  lemma ScanPairsDistinct(ladder: seq<StrikeQuote>, ps: seq<Pair>, disc: real)
    requires StrictlySortedBy(ladder, StrikeOf)
    requires PairsBelow(ps, |ladder|) && NoDuplicates(ps)
    ensures DistinctBy(ScanPairs(ladder, ps, disc), Span)
    ensures NoDuplicates(ScanPairs(ladder, ps, disc))
  {
    var boxes := ScanPairs(ladder, ps, disc);
    forall a, c | 0 <= a < c < |boxes| ensures Span(boxes[a]) != Span(boxes[c]) {
      var p, q := ps[a], ps[c];
      assert p != q;
      assert p in ps && q in ps;
      assert boxes[a] == BoxAt(ladder, p, disc) && boxes[c] == BoxAt(ladder, q, disc);
      SpanApart(ladder, p, q, disc);
    }
  }

  /** Two different pairs of a strictly ascending ladder span different strikes. */
  lemma SpanApart(ladder: seq<StrikeQuote>, p: Pair, q: Pair, disc: real)
    requires StrictlySortedBy(ladder, StrikeOf)
    requires p.i < p.j < |ladder| && q.i < q.j < |ladder| && p != q
    ensures Span(BoxAt(ladder, p, disc)) != Span(BoxAt(ladder, q, disc))
  {
    if p.i != q.i {
      assert StrikeOf(ladder[p.i]) != StrikeOf(ladder[q.i]);
    } else {
      assert StrikeOf(ladder[p.j]) != StrikeOf(ladder[q.j]);
    }
  }

  /** scan_boxes visits each pair once, so no two of a group's boxes share both strikes. */
  lemma ScanDistinct(rows: seq<StrikeQuote>, mode: Mode, cfg: Config, disc: real)
    requires DistinctBy(rows, StrikeOf)
    ensures DistinctBy(ScanBoxes(rows, mode, cfg, disc), Span)
    ensures NoDuplicates(ScanBoxes(rows, mode, cfg, disc))
  {
    var ladder := Ladder(rows, cfg.maxStrikes);
    var ps := EvaluatedPairs(rows, mode, cfg.maxStrikes);
    PairsOnce(|ladder|);
    ScanPairsDistinct(ladder, ps, disc);
    ScanGated(rows, mode, cfg, disc);
    FilterDistinct(ScanPairs(ladder, ps, disc), GateOf(cfg.minProfit), Span);
  }

  /** Every box of scan_boxes' output is the gated box of some evaluated pair. */
  lemma ScanFrom(rows: seq<StrikeQuote>, mode: Mode, cfg: Config, disc: real, b: Box) returns (k: nat)
    requires DistinctBy(rows, StrikeOf)
    requires b in ScanBoxes(rows, mode, cfg, disc)
    ensures k < |EvaluatedPairs(rows, mode, cfg.maxStrikes)|
    ensures b == BoxAt(Ladder(rows, cfg.maxStrikes), EvaluatedPairs(rows, mode, cfg.maxStrikes)[k], disc)
  {
    var ladder := Ladder(rows, cfg.maxStrikes);
    var ps := EvaluatedPairs(rows, mode, cfg.maxStrikes);
    assert ScanBoxes(rows, mode, cfg, disc) == EmitGated(ladder, ps, disc, cfg.minProfit);
    k := EmitWitness(ladder, ps, disc, cfg.minProfit, b);
  }

  /** The pair an emitted box was evaluated from. */
  lemma EmitWitness(ladder: seq<StrikeQuote>, pairs: seq<Pair>, disc: real, minProfit: real, b: Box) returns (k: nat)
    requires PairsBelow(pairs, |ladder|)
    requires b in EmitGated(ladder, pairs, disc, minProfit)
    ensures k < |pairs| && b == BoxAt(ladder, pairs[k], disc)
  {
    k :| 0 <= k < |pairs| && b == BoxAt(ladder, pairs[k], disc);
  }

  /** Consecutive strikes of the group sit side by side on its uncut ladder. */
  lemma NeighbourIndex(rows: seq<StrikeQuote>, cap: nat, lo: StrikeQuote, hi: StrikeQuote) returns (a: nat)
    requires DistinctBy(rows, StrikeOf)
    requires |rows| <= cap
    requires lo in rows && hi in rows && NextStrike(rows, lo, hi)
    ensures a + 1 < |Ladder(rows, cap)| && Ladder(rows, cap)[a] == lo && Ladder(rows, cap)[a + 1] == hi
  {
    LadderMembers(rows, cap);
    a := NeighbourAt(Ladder(rows, cap), rows, lo, hi);
  }

  /** On a strictly ascending ladder holding exactly the strikes of `rows`, consecutive strikes sit side by side. */
  lemma NeighbourAt(ladder: seq<StrikeQuote>, rows: seq<StrikeQuote>, lo: StrikeQuote, hi: StrikeQuote) returns (a: nat)
    requires StrictlySortedBy(ladder, StrikeOf)
    requires forall x :: x in ladder <==> x in rows
    requires lo in rows && hi in rows && NextStrike(rows, lo, hi)
    ensures a + 1 < |ladder| && ladder[a] == lo && ladder[a + 1] == hi
  {
    assert lo in ladder && hi in ladder;
    a :| 0 <= a < |ladder| && ladder[a] == lo;
    var c :| 0 <= c < |ladder| && ladder[c] == hi;
    StrictIndexOrder(ladder, StrikeOf, a, c);
    LadderGap(ladder, rows, a, c);
  }

  /** Two strikes of an ascending ladder drawn from `rows` that are not side by side have a strike of `rows` between them. */
  lemma LadderGap(ladder: seq<StrikeQuote>, rows: seq<StrikeQuote>, a: nat, c: nat)
    requires StrictlySortedBy(ladder, StrikeOf)
    requires forall x :: x in ladder ==> x in rows
    requires a < c < |ladder|
    ensures a + 1 < c ==> ladder[a + 1] in rows && StrikeOf(ladder[a]) < StrikeOf(ladder[a + 1]) < StrikeOf(ladder[c])
  {
    StrictBetween(ladder, StrikeOf, a, c);
  }

  /** In adjacent mode, a gated pair of consecutive strikes is emitted. */
  lemma AdjacentReach(rows: seq<StrikeQuote>, cfg: Config, disc: real, lo: StrikeQuote, hi: StrikeQuote)
    requires DistinctBy(rows, StrikeOf)
    requires |rows| <= cfg.maxStrikes
    requires lo in rows && hi in rows && NextStrike(rows, lo, hi)
    requires Gate(PairBox(lo, hi, disc).econ, cfg.minProfit)
    ensures PairBox(lo, hi, disc) in ScanBoxes(rows, AdjacentOnly, cfg, disc)
  {
    var ladder := Ladder(rows, cfg.maxStrikes);
    var a := NeighbourIndex(rows, cfg.maxStrikes, lo, hi);
    NeighbourEmitted(ladder, a, disc, cfg.minProfit);
    var ps := AdjacentEvaluated(rows, cfg.maxStrikes);
    assert ScanBoxes(rows, AdjacentOnly, cfg, disc) == EmitGated(ladder, AdjacentPairs(|ladder|), disc, cfg.minProfit);
  }

  /** The gated box of two neighbouring ladder strikes is emitted by the adjacent loop. */
  lemma NeighbourEmitted(ladder: seq<StrikeQuote>, a: nat, disc: real, minProfit: real)
    requires a + 1 < |ladder|
    requires Gate(PairBox(ladder[a], ladder[a + 1], disc).econ, minProfit)
    ensures PairBox(ladder[a], ladder[a + 1], disc) in EmitGated(ladder, AdjacentPairs(|ladder|), disc, minProfit)
  {
    assert AdjacentPairs(|ladder|)[a] == Pair(a, a + 1);
  }

  /** In adjacent mode the evaluated pairs of a ladder of two or more strikes are its neighbouring pairs. */
  lemma AdjacentEvaluated(rows: seq<StrikeQuote>, cap: nat) returns (ps: seq<Pair>)
    requires Min(cap, |rows|) >= 2
    ensures ps == EvaluatedPairs(rows, AdjacentOnly, cap) == AdjacentPairs(Min(cap, |rows|))
  {
    ps := EvaluatedPairs(rows, AdjacentOnly, cap);
  }

  /** With every strike kept, adjacent mode emits exactly the gated pairs of consecutive strikes. */
  lemma AdjacentScanComplete(rows: seq<StrikeQuote>, cfg: Config, disc: real, b: Box)
    requires DistinctBy(rows, StrikeOf)
    requires |rows| <= cfg.maxStrikes
    ensures b in ScanBoxes(rows, AdjacentOnly, cfg, disc) <==>
              && Gate(b.econ, cfg.minProfit)
              && exists lo, hi :: lo in rows && hi in rows && NextStrike(rows, lo, hi) && b == PairBox(lo, hi, disc)
  {
    if b in ScanBoxes(rows, AdjacentOnly, cfg, disc) {
      var lo, hi := AdjacentFromNeighbours(rows, cfg, disc, b);
    }
    if Gate(b.econ, cfg.minProfit)
       && exists lo, hi :: lo in rows && hi in rows && NextStrike(rows, lo, hi) && b == PairBox(lo, hi, disc)
    {
      var lo, hi :| lo in rows && hi in rows && NextStrike(rows, lo, hi) && b == PairBox(lo, hi, disc);
      AdjacentReach(rows, cfg, disc, lo, hi);
    }
  }

  /** The box's strikes sit side by side on the ladder. */
  predicate NeighbourBox(ladder: seq<StrikeQuote>, b: Box)
  {
    exists k :: 0 <= k < |ladder| - 1 && ladder[k].key.strike == b.k1 && ladder[k + 1].key.strike == b.k2
  }

  function NeighbourOf(ladder: seq<StrikeQuote>): Box -> bool
  {
    (b: Box) => NeighbourBox(ladder, b)
  }

  /** On a strictly ascending ladder a pair is adjacent exactly when its box spans neighbouring strikes. */
  lemma AdjacentIffNeighbour(ladder: seq<StrikeQuote>, p: Pair, disc: real)
    requires StrictlySortedBy(ladder, StrikeOf)
    requires p.i < p.j < |ladder|
    ensures IsAdjacent(p) <==> NeighbourBox(ladder, BoxAt(ladder, p, disc))
  {
    var b := BoxAt(ladder, p, disc);
    if NeighbourBox(ladder, b) {
      var k :| 0 <= k < |ladder| - 1 && ladder[k].key.strike == b.k1 && ladder[k + 1].key.strike == b.k2;
      StrictIndexUnique(ladder, StrikeOf, k, p.i);
      StrictIndexUnique(ladder, StrikeOf, k + 1, p.j);
    }
    if IsAdjacent(p) {
      assert ladder[p.i].key.strike == b.k1 && ladder[p.i + 1].key.strike == b.k2;
    }
  }

  /** Scanning a filtered pair list is filtering the scan, when the two masks agree pair by pair. */
  lemma {:induction false} ScanFilter(ladder: seq<StrikeQuote>, ps: seq<Pair>, disc: real, keep: Pair -> bool, pick: Box -> bool)
    requires PairsBelow(ps, |ladder|)
    requires forall p :: p in ps ==> (keep(p) <==> pick(BoxAt(ladder, p, disc)))
    ensures ScanPairs(ladder, Filter(ps, keep), disc) == Filter(ScanPairs(ladder, ps, disc), pick)
  {
    if |ps| > 0 {
      assert ps[0] in ps;
      var boxes := ScanPairs(ladder, ps, disc);
      assert boxes[1..] == ScanPairs(ladder, ps[1..], disc);
      ScanFilter(ladder, ps[1..], disc, keep, pick);
    }
  }

  /** Scanning the adjacent pairs gives the all-pairs scan cut down to neighbouring strikes, in the same order. */
  lemma AdjacentScanIsRestricted(ladder: seq<StrikeQuote>, disc: real)
    requires StrictlySortedBy(ladder, StrikeOf)
    ensures ScanPairs(ladder, AdjacentPairs(|ladder|), disc)
            == Filter(ScanPairs(ladder, AllPairs(|ladder|), disc), NeighbourOf(ladder))
  {
    var n := |ladder|;
    AdjacentIsRestrictedAllPairs(n);
    forall p | p in AllPairs(n) ensures IsAdjacent(p) <==> NeighbourOf(ladder)(BoxAt(ladder, p, disc)) {
      AdjacentIffNeighbour(ladder, p, disc);
    }
    ScanFilter(ladder, AllPairs(n), disc, IsAdjacent, NeighbourOf(ladder));
  }

  /** scan_boxes in adjacent mode is scan_boxes in all-pairs mode restricted to neighbouring strikes, in the same order. */
  lemma AdjacentModeIsRestricted(rows: seq<StrikeQuote>, cfg: Config, disc: real)
    requires DistinctBy(rows, StrikeOf)
    ensures ScanBoxes(rows, AdjacentOnly, cfg, disc)
            == Filter(ScanBoxes(rows, EveryPair, cfg, disc), NeighbourOf(Ladder(rows, cfg.maxStrikes)))
  {
    var ladder := Ladder(rows, cfg.maxStrikes);
    var n := |ladder|;
    ScanGated(rows, AdjacentOnly, cfg, disc);
    ScanGated(rows, EveryPair, cfg, disc);
    if n >= 2 {
      assert EvaluatedPairs(rows, AdjacentOnly, cfg.maxStrikes) == AdjacentPairs(n);
      assert EvaluatedPairs(rows, EveryPair, cfg.maxStrikes) == AllPairs(n);
      AdjacentScanIsRestricted(ladder, disc);
      FilterCommutes(ScanPairs(ladder, AllPairs(n), disc), NeighbourOf(ladder), GateOf(cfg.minProfit));
    }
  }

  /** scan_boxes is the gate applied to the boxes of every evaluated pair. */
  lemma ScanGated(rows: seq<StrikeQuote>, mode: Mode, cfg: Config, disc: real)
    requires DistinctBy(rows, StrikeOf)
    ensures ScanBoxes(rows, mode, cfg, disc)
            == Filter(ScanPairs(Ladder(rows, cfg.maxStrikes), EvaluatedPairs(rows, mode, cfg.maxStrikes), disc), GateOf(cfg.minProfit))
  {
    GateFusion(Ladder(rows, cfg.maxStrikes), EvaluatedPairs(rows, mode, cfg.maxStrikes), disc, cfg.minProfit);
  }

  /**
   With the update script's settings a group of two strikes is scanned whole
   in either mode: it yields its one box exactly when that box clears
   MIN_PROFIT = 0.25, and nothing otherwise.
   */
  lemma TwoStrikeGroup(lo: StrikeQuote, hi: StrikeQuote, mode: Mode, disc: real)
    requires lo.key.strike < hi.key.strike
    ensures ScanBoxes([lo, hi], mode, DefaultConfig, disc)
            == if PairBox(lo, hi, disc).econ.profitBuy >= 0.25 || PairBox(lo, hi, disc).econ.profitSell >= 0.25
               then [PairBox(lo, hi, disc)] else []
  {
    var rows := [lo, hi];
    TwoLadder(lo, hi, DefaultConfig.maxStrikes);
    TwoPairs(rows, mode, DefaultConfig.maxStrikes);
    assert ScanBoxes(rows, mode, DefaultConfig, disc) == EmitGated(rows, [Pair(0, 1)], disc, DefaultConfig.minProfit);
    EmitOne(rows, Pair(0, 1), disc, DefaultConfig.minProfit);
  }

  /** The scan loop over a single pair. */
  lemma EmitOne(ladder: seq<StrikeQuote>, p: Pair, disc: real, minProfit: real)
    requires p.i < p.j < |ladder|
    ensures EmitGated(ladder, [p], disc, minProfit)
            == if Gate(BoxAt(ladder, p, disc).econ, minProfit) then [BoxAt(ladder, p, disc)] else []
  {
    assert [p][1..] == [];
  }

  /** Two strikes within the cap are laddered in strike order. */
  lemma TwoLadder(lo: StrikeQuote, hi: StrikeQuote, cap: nat)
    requires lo.key.strike < hi.key.strike && cap >= 2
    ensures Ladder([lo, hi], cap) == [lo, hi]
  {
    var rows := [lo, hi];
    var ladder := Ladder(rows, cap);
    assert multiset(ladder) == multiset(rows);
    assert ladder[0] in multiset(rows) && ladder[1] in multiset(rows);
    assert StrikeOf(ladder[0]) <= StrikeOf(ladder[1]);
  }

  /** Over two strikes within the cap, either mode evaluates the single pair (0, 1). */
  lemma TwoPairs(rows: seq<StrikeQuote>, mode: Mode, cap: nat)
    requires |rows| == 2 && cap >= 2
    ensures EvaluatedPairs(rows, mode, cap) == [Pair(0, 1)]
  {
    var ps := EvaluatedPairs(rows, mode, cap);
    assert 2 * |ps| <= 2;
    if mode == EveryPair {
      assert ps == AllPairs(2);
    }
    assert |ps| == 1;
    assert ps[0] in ps;
  }

  /** One output row of `run`: the group, the box, and T_years. */
  datatype Candidate = Candidate(key: GroupKey, box: Box, years: real)

  function InGroup(g: GroupKey): StrikeQuote -> bool
  {
    (sq: StrikeQuote) => sq.key.group == g
  }

  /** The rows of one (date, symbol, expiration) group, in table order. */
  function GroupRows(table: seq<StrikeQuote>, g: GroupKey): (rows: seq<StrikeQuote>)
    ensures forall sq :: sq in rows <==> sq in table && sq.key.group == g
    ensures DistinctBy(table, RowKey) ==> DistinctBy(rows, StrikeOf)
  {
    var rows := Filter(table, InGroup(g));
    assert DistinctBy(table, RowKey) ==> DistinctBy(rows, StrikeOf) by {
      if DistinctBy(table, RowKey) {
        FilterDistinct(table, InGroup(g), RowKey);
        forall i, j | 0 <= i < j < |rows| ensures StrikeOf(rows[i]) != StrikeOf(rows[j]) {
          assert rows[i] in rows && rows[j] in rows;
          assert RowKey(rows[i]) != RowKey(rows[j]);
        }
      }
    }
    rows
  }

  function GroupOf(sq: StrikeQuote): GroupKey { sq.key.group }

  /** The groups of the table, each once, in order of first appearance. */
  function GroupKeys(table: seq<StrikeQuote>): (gs: seq<GroupKey>)
    ensures forall g :: g in gs <==> g in KeysOf(table, GroupOf)
    ensures NoDuplicates(gs)
  {
    var all := seq(|table|, i requires 0 <= i < |table| => GroupOf(table[i]));
    forall g ensures g in all <==> g in KeysOf(table, GroupOf) {
      if g in KeysOf(table, GroupOf) {
        var sq :| sq in table && GroupOf(sq) == g;
        var i :| 0 <= i < |table| && table[i] == sq;
        assert all[i] == g;
      }
      if g in all {
        var i :| 0 <= i < |all| && all[i] == g;
        assert table[i] in table;
      }
    }
    Distinct(all)
  }

  function GroupDiscount(g: GroupKey, cfg: Config, exp: real -> real): real
  {
    DiscountFactor(cfg.rate, YearsToExpiry(g), exp)
  }

  /** One row per box, in box order, each tagged with the group and its T_years. */
  function Tag(g: GroupKey, boxes: seq<Box>): (out: seq<Candidate>)
    ensures |out| == |boxes|
    ensures forall k :: 0 <= k < |out| ==> out[k] == Candidate(g, boxes[k], YearsToExpiry(g))
    ensures forall c :: c in out <==> exists b :: b in boxes && c == Candidate(g, b, YearsToExpiry(g))
    ensures NoDuplicates(boxes) ==> NoDuplicates(out)
  {
    if |boxes| == 0 then []
    else
      assert boxes == [boxes[0]] + boxes[1..];
      [Candidate(g, boxes[0], YearsToExpiry(g))] + Tag(g, boxes[1..])
  }

  /** The scan of each listed group, concatenated in list order. */
  function RunGroups(table: seq<StrikeQuote>, gs: seq<GroupKey>, mode: Mode, cfg: Config, exp: real -> real): (out: seq<Candidate>)
    requires DistinctBy(table, RowKey)
    ensures forall c :: c in out ==>
              c.key in gs && c.years == YearsToExpiry(c.key) && Emits(table, c.key, mode, cfg, exp, c.box)
    ensures forall g, b :: g in gs && Emits(table, g, mode, cfg, exp, b) ==> Candidate(g, b, YearsToExpiry(g)) in out
    ensures NoDuplicates(gs) ==> NoDuplicates(out)
  {
    if |gs| == 0 then []
    else
      var rest := RunGroups(table, gs[1..], mode, cfg, exp);
      RunStep(table, gs, mode, cfg, exp, rest);
      Tag(gs[0], ScanBoxes(GroupRows(table, gs[0]), mode, cfg, GroupDiscount(gs[0], cfg, exp))) + rest
  }

  /** One step of run's loop: the first group's tagged scan goes in front of the later groups' rows. */
  lemma RunStep(table: seq<StrikeQuote>, gs: seq<GroupKey>, mode: Mode, cfg: Config, exp: real -> real, rest: seq<Candidate>)
    requires DistinctBy(table, RowKey) && |gs| > 0
    requires forall c :: c in rest ==>
               c.key in gs[1..] && c.years == YearsToExpiry(c.key) && Emits(table, c.key, mode, cfg, exp, c.box)
    requires forall g, b :: g in gs[1..] && Emits(table, g, mode, cfg, exp, b) ==> Candidate(g, b, YearsToExpiry(g)) in rest
    requires NoDuplicates(gs[1..]) ==> NoDuplicates(rest)
    ensures forall c :: c in Tag(gs[0], ScanBoxes(GroupRows(table, gs[0]), mode, cfg, GroupDiscount(gs[0], cfg, exp))) + rest ==>
              c.key in gs && c.years == YearsToExpiry(c.key) && Emits(table, c.key, mode, cfg, exp, c.box)
    ensures forall g, b :: g in gs && Emits(table, g, mode, cfg, exp, b) ==>
              Candidate(g, b, YearsToExpiry(g)) in Tag(gs[0], ScanBoxes(GroupRows(table, gs[0]), mode, cfg, GroupDiscount(gs[0], cfg, exp))) + rest
    ensures NoDuplicates(gs) ==>
              NoDuplicates(Tag(gs[0], ScanBoxes(GroupRows(table, gs[0]), mode, cfg, GroupDiscount(gs[0], cfg, exp))) + rest)
  {
    assert gs == [gs[0]] + gs[1..];
    var g := gs[0];
    var boxes := ScanBoxes(GroupRows(table, g), mode, cfg, GroupDiscount(g, cfg, exp));
    var head := Tag(g, boxes);
    forall c | c in head ensures c.key == g && c.years == YearsToExpiry(g) && Emits(table, g, mode, cfg, exp, c.box) {
      var k :| 0 <= k < |head| && head[k] == c;
      assert boxes[k] in boxes;
    }
    forall b | Emits(table, g, mode, cfg, exp, b) ensures Candidate(g, b, YearsToExpiry(g)) in head {
      var k :| 0 <= k < |boxes| && boxes[k] == b;
      assert head[k] == Candidate(g, b, YearsToExpiry(g));
    }
    if NoDuplicates(gs) {
      ScanDistinct(GroupRows(table, g), mode, cfg, GroupDiscount(g, cfg, exp));
      NoDuplicatesConcat(head, rest);
    }
  }

  /** The update script's table after the spread filter. */
  function LiquidTable(raw: seq<Quote>, cfg: Config): (t: seq<StrikeQuote>)
    ensures DistinctBy(t, RowKey)
    ensures forall sq :: sq in t <==> sq in QuoteTable(raw) && Liquid(sq, cfg.maxSpread)
  {
    LiquidityFilter(QuoteTable(raw), cfg.maxSpread)
  }

  /** A candidate of a group's scan is a pair of strikes of that group, discounted for that group. */
  lemma CandidateFromTable(table: seq<StrikeQuote>, gs: seq<GroupKey>, mode: Mode, cfg: Config, exp: real -> real, c: Candidate)
      returns (lo: StrikeQuote, hi: StrikeQuote)
    requires DistinctBy(table, RowKey)
    requires c in RunGroups(table, gs, mode, cfg, exp)
    ensures lo in table && hi in table && lo.key.group == c.key && hi.key.group == c.key
    ensures c.box == PairBox(lo, hi, DiscountFactor(cfg.rate, c.years, exp))
  {
    var rows := GroupRows(table, c.key);
    lo, hi := ScanFromRows(rows, mode, cfg, GroupDiscount(c.key, cfg, exp), c.box);
  }

  /** Every candidate of the table is a pair of its strikes, discounted for its group. */
  lemma CandidatesFromTable(table: seq<StrikeQuote>, mode: Mode, cfg: Config, exp: real -> real)
    requires DistinctBy(table, RowKey)
    ensures forall c :: c in RunGroups(table, GroupKeys(table), mode, cfg, exp) ==>
              exists lo, hi :: lo in table && hi in table && lo.key.group == c.key && hi.key.group == c.key
                && c.box == PairBox(lo, hi, DiscountFactor(cfg.rate, c.years, exp))
  {
    forall c | c in RunGroups(table, GroupKeys(table), mode, cfg, exp)
      ensures exists lo, hi :: lo in table && hi in table && lo.key.group == c.key && hi.key.group == c.key
                && c.box == PairBox(lo, hi, DiscountFactor(cfg.rate, c.years, exp))
    {
      var lo, hi := CandidateFromTable(table, GroupKeys(table), mode, cfg, exp, c);
    }
  }

  /** With R = 0 every candidate's payoff is K2 - K1. */
  lemma CandidatesUndiscounted(table: seq<StrikeQuote>, mode: Mode, cfg: Config, exp: real -> real)
    requires DistinctBy(table, RowKey)
    requires ExpLike(exp) && cfg.rate == 0.0
    ensures forall c :: c in RunGroups(table, GroupKeys(table), mode, cfg, exp) ==> c.box.econ.payoffPv == c.box.k2 - c.box.k1
  {
    forall c | c in RunGroups(table, GroupKeys(table), mode, cfg, exp) ensures c.box.econ.payoffPv == c.box.k2 - c.box.k1 {
      var lo, hi := CandidateFromTable(table, GroupKeys(table), mode, cfg, exp, c);
      ZeroRateUndiscounted(lo, hi, c.key, exp);
    }
  }

  /** `b` is a box that scan_boxes emits for group `g` of `table`. */
  ghost predicate Emits(table: seq<StrikeQuote>, g: GroupKey, mode: Mode, cfg: Config, exp: real -> real, b: Box)
    requires DistinctBy(table, RowKey)
  {
    b in ScanBoxes(GroupRows(table, g), mode, cfg, GroupDiscount(g, cfg, exp))
  }

  /** `c` is a box that scan_boxes emits for a group of `table`, tagged with that group. */
  ghost predicate Scanned(table: seq<StrikeQuote>, mode: Mode, cfg: Config, exp: real -> real, c: Candidate)
    requires DistinctBy(table, RowKey)
  {
    c.key in KeysOf(table, GroupOf) && Emits(table, c.key, mode, cfg, exp, c.box)
  }

  /** The facts `run` promises, for the candidates of any uniquely keyed table. */
  lemma RunTable(table: seq<StrikeQuote>, mode: Mode, cfg: Config, exp: real -> real)
    requires DistinctBy(table, RowKey)
    ensures forall c :: c in RunGroups(table, GroupKeys(table), mode, cfg, exp) ==>
              && Scanned(table, mode, cfg, exp, c)
              && c.box.k1 < c.box.k2 && Gate(c.box.econ, cfg.minProfit)
              && c.years >= 0.0 && c.years == YearsToExpiry(c.key)
              && exists lo, hi :: lo in table && hi in table && lo.key.group == c.key && hi.key.group == c.key
                   && c.box == PairBox(lo, hi, DiscountFactor(cfg.rate, c.years, exp))
    ensures forall g, b :: g in KeysOf(table, GroupOf)
              && Emits(table, g, mode, cfg, exp, b)
              ==> Candidate(g, b, YearsToExpiry(g)) in RunGroups(table, GroupKeys(table), mode, cfg, exp)
    ensures ExpLike(exp) && cfg.rate == 0.0 ==>
              forall c :: c in RunGroups(table, GroupKeys(table), mode, cfg, exp) ==> c.box.econ.payoffPv == c.box.k2 - c.box.k1
    ensures NoDuplicates(RunGroups(table, GroupKeys(table), mode, cfg, exp))
  {
    CandidatesFromTable(table, mode, cfg, exp);
    if ExpLike(exp) && cfg.rate == 0.0 {
      CandidatesUndiscounted(table, mode, cfg, exp);
    }
  }

  /**
   run(mode): every candidate of every group. Each row is a pair K1 < K2 of
   liquid strikes of its group that passes the gate, with that pair's economics
   discounted by exp(-R * T); and every gated pair of every group's scan is a
   row, written once.
   */
  function Run(raw: seq<Quote>, mode: Mode, cfg: Config, exp: real -> real): (out: seq<Candidate>)
    ensures forall c :: c in out ==> c.box.k1 < c.box.k2 && Gate(c.box.econ, cfg.minProfit)
    ensures forall c :: c in out ==>
              && Scanned(LiquidTable(raw, cfg), mode, cfg, exp, c)
              && c.years >= 0.0 && c.years == YearsToExpiry(c.key)
              && exists lo, hi :: lo in LiquidTable(raw, cfg) && hi in LiquidTable(raw, cfg)
                   && lo.key.group == c.key && hi.key.group == c.key
                   && c.box == PairBox(lo, hi, DiscountFactor(cfg.rate, c.years, exp))
    ensures forall g, b :: g in KeysOf(LiquidTable(raw, cfg), GroupOf)
              && Emits(LiquidTable(raw, cfg), g, mode, cfg, exp, b)
              ==> Candidate(g, b, YearsToExpiry(g)) in out
    ensures ExpLike(exp) && cfg.rate == 0.0 ==> forall c :: c in out ==> c.box.econ.payoffPv == c.box.k2 - c.box.k1
    ensures NoDuplicates(out)
  {
    var table := LiquidTable(raw, cfg);
    RunTable(table, mode, cfg, exp);
    RunGroups(table, GroupKeys(table), mode, cfg, exp)
  }

  /** The two strikes of a candidate are rows of the quote table. */
  lemma CandidateStrikes(raw: seq<Quote>, mode: Mode, cfg: Config, exp: real -> real, c: Candidate) returns (lo: StrikeQuote, hi: StrikeQuote)
    requires c in Run(raw, mode, cfg, exp)
    ensures lo in QuoteTable(raw) && hi in QuoteTable(raw)
    ensures lo.key == StrikeKey(c.key, c.box.k1) && hi.key == StrikeKey(c.key, c.box.k2)
  {
    var table := LiquidTable(raw, cfg);
    RunUnfold(raw, mode, cfg, exp);
    lo, hi := CandidateFromTable(table, GroupKeys(table), mode, cfg, exp, c);
  }

  /** run(mode) is the concatenated scan of the liquid table's groups. */
  lemma RunUnfold(raw: seq<Quote>, mode: Mode, cfg: Config, exp: real -> real)
    ensures Run(raw, mode, cfg, exp) == RunGroups(LiquidTable(raw, cfg), GroupKeys(LiquidTable(raw, cfg)), mode, cfg, exp)
  {
  }

  /** A strike with no sane quote on its put side takes part in no candidate of `run`. */
  lemma MissingPutExcluded(raw: seq<Quote>, mode: Mode, cfg: Config, exp: real -> real, sk: StrikeKey, c: Candidate)
    requires SideKey(sk, Put) !in KeysOf(Sanitize(raw), QuoteKey)
    requires c in Run(raw, mode, cfg, exp)
    ensures StrikeKey(c.key, c.box.k1) != sk && StrikeKey(c.key, c.box.k2) != sk
  {
    var lo, hi := CandidateStrikes(raw, mode, cfg, exp, c);
    StrikeExcluded(raw, sk, lo);
    StrikeExcluded(raw, sk, hi);
  }

  /** A pivoted strike has a sane put quote. */
  lemma StrikeExcluded(raw: seq<Quote>, sk: StrikeKey, sq: StrikeQuote)
    requires SideKey(sk, Put) !in KeysOf(Sanitize(raw), QuoteKey)
    requires sq in QuoteTable(raw)
    ensures sq.key != sk
  {
    assert sq.key in KeysOf(QuoteTable(raw), RowKey);
  }

  /**
   A chain quoted without spread and consistent with put-call parity
   (C(K) - P(K) = F - K for one forward F) has zero buy and sell profit on every
   pair, so no undiscounted scan emits anything at a positive MIN_PROFIT.
   */
  lemma ParityChainEmitsNothing(rows: seq<StrikeQuote>, mode: Mode, cfg: Config, fwd: real)
    requires DistinctBy(rows, StrikeOf)
    requires forall sq :: sq in rows ==>
               sq.callBid == sq.callAsk && sq.putBid == sq.putAsk && sq.callAsk - sq.putAsk == fwd - sq.key.strike
    requires cfg.minProfit > 0.0
    ensures ScanBoxes(rows, mode, cfg, 1.0) == []
  {
    var out := ScanBoxes(rows, mode, cfg, 1.0);
    if |out| > 0 {
      assert out[0] in out;
      var lo, hi := ScanFromRows(rows, mode, cfg, 1.0, out[0]);
      assert false;
    }
  }
}
