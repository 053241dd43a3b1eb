/** The optional value returned by a key lookup. */
module Options {
  datatype Option<+T> = None | Some(value: T)
}

/**
 The quote table of the box-spread engine (results/arbitrage_opp_update.py,
 "LOAD + CLEAN" and the pivot): raw option quotes are sanity-filtered,
 duplicate quotes for one (date, symbol, expiration, strike, side) are
 collapsed, and the call and put sides of each strike are joined into one
 row carrying the four prices a box needs.
 */
module Quotes {
  import opened Seqs
  import opened Options

  datatype Side = Call | Put

  /** One (date, act_symbol, expiration) expiration group; dates are day numbers. */
  datatype GroupKey = GroupKey(date: int, symbol: string, expiration: int)

  datatype StrikeKey = StrikeKey(group: GroupKey, strike: real)

  datatype SideKey = SideKey(at: StrikeKey, side: Side)

  /** A quote row for one option: a raw input row, or the aggregate of its duplicates. */
  datatype Quote = Quote(key: SideKey, bid: real, ask: real)

  /** A pivoted row: both sides of one strike (Call_bid, Call_ask, Put_bid, Put_ask). */
  datatype StrikeQuote = StrikeQuote(key: StrikeKey, callBid: real, callAsk: real, putBid: real, putAsk: real)

  function QuoteKey(q: Quote): SideKey { q.key }

  function RowKey(sq: StrikeQuote): StrikeKey { sq.key }

  function StrikeOf(sq: StrikeQuote): real { sq.key.strike }

  /** The basic quote sanity test: a non-negative bid not above the ask. */
  predicate Sane(q: Quote) { q.bid >= 0.0 && q.ask >= q.bid }

  function Sanitize(raw: seq<Quote>): (r: seq<Quote>)
    ensures forall q :: q in r <==> q in raw && 0.0 <= q.bid <= q.ask
    ensures |r| <= |raw|
  {
    Filter(raw, Sane)
  }

  lemma SanitizeIdempotent(raw: seq<Quote>)
    ensures Sanitize(Sanitize(raw)) == Sanitize(raw)
  {
    FilterIdempotent(raw, Sane);
  }

  /** How duplicate quotes of one option collapse into one row. */
  datatype DedupPolicy =
    | BestPrice   // groupby(...).agg(bid=max, ask=min)
    | FirstSeen   // pivot_table(aggfunc="first")

  function Combine(kept: Quote, q: Quote, policy: DedupPolicy): Quote
  {
    match policy
    case BestPrice => Quote(kept.key, MaxReal(kept.bid, q.bid), MinReal(kept.ask, q.ask))
    case FirstSeen => kept
  }

  /** `a` carries the highest bid and the lowest ask quoted for its option in `raw`. */
  ghost predicate IsBestPrice(raw: seq<Quote>, a: Quote)
  {
    && (forall q :: q in raw && q.key == a.key ==> q.bid <= a.bid && a.ask <= q.ask)
    && (exists q :: q in raw && q.key == a.key && q.bid == a.bid)
    && (exists q :: q in raw && q.key == a.key && q.ask == a.ask)
  }

  /** `a` is the earliest quote for its option in `raw`. */
  ghost predicate IsFirstSeen(raw: seq<Quote>, a: Quote)
  {
    exists j :: 0 <= j < |raw| && raw[j] == a && forall k :: 0 <= k < j ==> raw[k].key != a.key
  }

  ghost predicate Summarises(raw: seq<Quote>, a: Quote, policy: DedupPolicy)
  {
    match policy
    case BestPrice => IsBestPrice(raw, a)
    case FirstSeen => IsFirstSeen(raw, a)
  }

  /** Folds one more quote into the de-duplicated rows `acc`. */
  function Merge(acc: seq<Quote>, q: Quote, policy: DedupPolicy): (r: seq<Quote>)
    requires DistinctBy(acc, QuoteKey)
    ensures KeysOf(r, QuoteKey) == KeysOf(acc, QuoteKey) + {q.key}
    ensures DistinctBy(r, QuoteKey)
    ensures forall a :: a in r && a.key != q.key ==> a in acc
    ensures forall a :: a in r && a.key == q.key ==>
              (a == q && q.key !in KeysOf(acc, QuoteKey))
              || (exists b :: b in acc && b.key == q.key && a == Combine(b, q, policy))
  {
    if |acc| == 0 then
      KeysOfCons(q, [], QuoteKey);
      assert [q] == [q] + [];
      [q]
    else
      assert acc == [acc[0]] + acc[1..];
      DistinctTail(acc, QuoteKey);
      if acc[0].key == q.key then
        var r := [Combine(acc[0], q, policy)] + acc[1..];
        DistinctCons(Combine(acc[0], q, policy), acc[1..], QuoteKey);
        r
      else
        var t := Merge(acc[1..], q, policy);
        var r := [acc[0]] + t;
        DistinctCons(acc[0], t, QuoteKey);
        r
  }

  /** A summary of `init` stays a summary once a quote for another option is appended. */
  lemma SummaryExtends(init: seq<Quote>, last: Quote, a: Quote, policy: DedupPolicy)
    requires Summarises(init, a, policy)
    requires a.key != last.key
    ensures Summarises(init + [last], a, policy)
  {
    var raw := init + [last];
    match policy
    case BestPrice =>
      forall q | q in raw && q.key == a.key ensures q.bid <= a.bid && a.ask <= q.ask {
        assert q in init;
      }
      var qb :| qb in init && qb.key == a.key && qb.bid == a.bid;
      assert qb in raw;
      var qa :| qa in init && qa.key == a.key && qa.ask == a.ask;
      assert qa in raw;
    case FirstSeen =>
      var j :| 0 <= j < |init| && init[j] == a && forall k :: 0 <= k < j ==> init[k].key != a.key;
      assert raw[j] == a;
      assert forall k :: 0 <= k < j ==> raw[k] == init[k];
  }

  /** The summary of a quote for an option not seen before is the quote itself. */
  lemma SummaryOfNewKey(init: seq<Quote>, last: Quote, policy: DedupPolicy)
    requires last.key !in KeysOf(init, QuoteKey)
    ensures Summarises(init + [last], last, policy)
  {
    var raw := init + [last];
    var ks := KeysOf(init, QuoteKey);
    assert forall q :: q in init ==> q.key != last.key;
    assert forall q :: q in raw && q.key == last.key ==> q == last;
    assert raw[|init|] == last;
    match policy
    case BestPrice =>
    case FirstSeen =>
      forall k | 0 <= k < |init| ensures raw[k].key != last.key {
        assert raw[k] == init[k] && init[k] in init;
      }
  }

  /** Combining a summary of `init` with `last` summarises `init + [last]`. */
  lemma SummaryOfCombined(init: seq<Quote>, last: Quote, b: Quote, policy: DedupPolicy)
    requires Summarises(init, b, policy)
    requires b.key == last.key
    ensures Summarises(init + [last], Combine(b, last, policy), policy)
  {
    var raw := init + [last];
    var a := Combine(b, last, policy);
    match policy
    case BestPrice =>
      forall q | q in raw && q.key == a.key ensures q.bid <= a.bid && a.ask <= q.ask {
        if q != last {
          assert q in init;
        }
      }
      var qb :| qb in init && qb.key == b.key && qb.bid == b.bid;
      var qa :| qa in init && qa.key == b.key && qa.ask == b.ask;
      assert qb in raw && qa in raw && last in raw;
      if b.bid >= last.bid {
        assert a.bid == qb.bid;
      } else {
        assert a.bid == last.bid;
      }
      if b.ask <= last.ask {
        assert a.ask == qa.ask;
      } else {
        assert a.ask == last.ask;
      }
    case FirstSeen =>
      var j :| 0 <= j < |init| && init[j] == b && forall k :: 0 <= k < j ==> init[k].key != b.key;
      assert raw[j] == a;
      assert forall k :: 0 <= k < j ==> raw[k] == init[k];
  }

  /** Folding `last` into rows that summarise `init` gives rows that summarise `init + [last]`. */
  lemma MergeSummarises(init: seq<Quote>, last: Quote, acc: seq<Quote>, policy: DedupPolicy)
    requires DistinctBy(acc, QuoteKey)
    requires KeysOf(acc, QuoteKey) == KeysOf(init, QuoteKey)
    requires forall a :: a in acc ==> Summarises(init, a, policy)
    ensures forall a :: a in Merge(acc, last, policy) ==> Summarises(init + [last], a, policy)
  {
    var r := Merge(acc, last, policy);
    forall a | a in r ensures Summarises(init + [last], a, policy) {
      if a.key != last.key {
        SummaryExtends(init, last, a, policy);
      } else if a == last && last.key !in KeysOf(acc, QuoteKey) {
        SummaryOfNewKey(init, last, policy);
      } else {
        var b :| b in acc && b.key == last.key && a == Combine(b, last, policy);
        SummaryOfCombined(init, last, b, policy);
      }
    }
  }

  /**
   One row per option (date, symbol, expiration, strike, side) quoted in `raw`,
   in first-appearance order, each summarising that option's duplicates under `policy`.
   */
  function Aggregate(raw: seq<Quote>, policy: DedupPolicy): (r: seq<Quote>)
    ensures DistinctBy(r, QuoteKey)
    ensures KeysOf(r, QuoteKey) == KeysOf(raw, QuoteKey)
    ensures forall a :: a in r ==> Summarises(raw, a, policy)
  {
    if |raw| == 0 then []
    else
      var init := raw[..|raw| - 1];
      var last := raw[|raw| - 1];
      assert raw == init + [last];
      var acc := Aggregate(init, policy);
      var r := Merge(acc, last, policy);
      KeysOfSnoc(init, last, QuoteKey);
      MergeSummarises(init, last, acc, policy);
      r
  }

  /**
   Best-price collapsing can cross a book: two sane quotes (1, 2) and (3, 4)
   for one option collapse to bid 3 above ask 2.
   */
  lemma BestPriceCanCross(k: SideKey)
    ensures Aggregate([Quote(k, 1.0, 2.0), Quote(k, 3.0, 4.0)], BestPrice) == [Quote(k, 3.0, 2.0)]
  {
    var raw := [Quote(k, 1.0, 2.0), Quote(k, 3.0, 4.0)];
    assert raw[..1] == [Quote(k, 1.0, 2.0)];
    assert raw[..1][..0] == [];
    assert Aggregate(raw[..1], BestPrice) == [Quote(k, 1.0, 2.0)];
  }

  /** The first row of `rows` for option `k`, if any. */
  function Find(rows: seq<Quote>, k: SideKey): (r: Option<Quote>)
    ensures r.Some? ==> r.value in rows && r.value.key == k
    ensures r.None? ==> k !in KeysOf(rows, QuoteKey)
  {
    if |rows| == 0 then None
    else if rows[0].key == k then Some(rows[0])
    else
      assert rows == [rows[0]] + rows[1..];
      Find(rows[1..], k)
  }

  /** `sq` is the join of a call row and a put row of `agg` at its strike. */
  ghost predicate JoinedFrom(sq: StrikeQuote, agg: seq<Quote>)
  {
    && Quote(SideKey(sq.key, Call), sq.callBid, sq.callAsk) in agg
    && Quote(SideKey(sq.key, Put), sq.putBid, sq.putAsk) in agg
  }

  /** Strikes at which `rows` holds a call row. */
  ghost function CallStrikes(rows: seq<Quote>): set<StrikeKey>
  {
    set q | q in rows && q.key.side == Call :: q.key.at
  }

  function PivotFrom(rows: seq<Quote>, agg: seq<Quote>): (r: seq<StrikeQuote>)
    requires forall q :: q in rows ==> q in agg
    ensures forall sq :: sq in r ==> JoinedFrom(sq, agg)
    ensures KeysOf(r, RowKey) <= CallStrikes(rows)
    ensures forall c :: c in rows && c.key.side == Call && SideKey(c.key.at, Put) in KeysOf(agg, QuoteKey)
              ==> c.key.at in KeysOf(r, RowKey)
    ensures DistinctBy(rows, QuoteKey) ==> DistinctBy(r, RowKey)
  {
    if |rows| == 0 then []
    else
      assert rows == [rows[0]] + rows[1..];
      var c := rows[0];
      var rest := PivotFrom(rows[1..], agg);
      assert DistinctBy(rows, QuoteKey) ==> c.key.at !in KeysOf(rest, RowKey) || c.key.side != Call by {
        if DistinctBy(rows, QuoteKey) && c.key.side == Call {
          DistinctTail(rows, QuoteKey);
        }
      }
      if c.key.side == Call then
        match Find(agg, SideKey(c.key.at, Put))
        case Some(p) =>
          var sq := StrikeQuote(c.key.at, c.bid, c.ask, p.bid, p.ask);
          assert c == Quote(SideKey(sq.key, Call), sq.callBid, sq.callAsk);
          assert p == Quote(SideKey(sq.key, Put), sq.putBid, sq.putAsk);
          assert DistinctBy(rows, QuoteKey) ==> DistinctBy([sq] + rest, RowKey) by {
            if DistinctBy(rows, QuoteKey) {
              DistinctTail(rows, QuoteKey);
              DistinctCons(sq, rest, RowKey);
            }
          }
          KeysOfCons(sq, rest, RowKey);
          [sq] + rest
        case None =>
          assert DistinctBy(rows, QuoteKey) ==> DistinctBy(rest, RowKey) by {
            if DistinctBy(rows, QuoteKey) { DistinctTail(rows, QuoteKey); }
          }
          rest
      else
        assert DistinctBy(rows, QuoteKey) ==> DistinctBy(rest, RowKey) by {
          if DistinctBy(rows, QuoteKey) { DistinctTail(rows, QuoteKey); }
        }
        rest
  }

  /**
   The pivot of the aggregated table: an inner join of its call and put sides
   on (date, symbol, expiration, strike).
   */
  function Pivot(agg: seq<Quote>): (r: seq<StrikeQuote>)
    ensures forall sq :: sq in r ==> JoinedFrom(sq, agg)
    ensures forall k :: k in KeysOf(r, RowKey) <==>
              SideKey(k, Call) in KeysOf(agg, QuoteKey) && SideKey(k, Put) in KeysOf(agg, QuoteKey)
    ensures DistinctBy(agg, QuoteKey) ==> DistinctBy(r, RowKey)
  {
    var r := PivotFrom(agg, agg);
    assert forall k :: k in KeysOf(r, RowKey) <==>
              SideKey(k, Call) in KeysOf(agg, QuoteKey) && SideKey(k, Put) in KeysOf(agg, QuoteKey) by {
      forall k ensures k in KeysOf(r, RowKey) <==>
              SideKey(k, Call) in KeysOf(agg, QuoteKey) && SideKey(k, Put) in KeysOf(agg, QuoteKey) {
        if k in KeysOf(r, RowKey) {
          var sq :| sq in r && sq.key == k;
          assert JoinedFrom(sq, agg);
          assert Quote(SideKey(k, Call), sq.callBid, sq.callAsk) in agg;
          assert Quote(SideKey(k, Put), sq.putBid, sq.putAsk) in agg;
        }
        if SideKey(k, Call) in KeysOf(agg, QuoteKey) && SideKey(k, Put) in KeysOf(agg, QuoteKey) {
          var c :| c in agg && c.key == SideKey(k, Call);
        }
      }
    }
    r
  }

  /**
   The update script's table `p` before the spread filter: sane quotes,
   collapsed to the best bid and ask per option, call and put joined.
   */
  function QuoteTable(raw: seq<Quote>): (r: seq<StrikeQuote>)
    ensures DistinctBy(r, RowKey)
    ensures forall k :: k in KeysOf(r, RowKey) <==>
              SideKey(k, Call) in KeysOf(Sanitize(raw), QuoteKey) && SideKey(k, Put) in KeysOf(Sanitize(raw), QuoteKey)
    ensures forall sq :: sq in r ==>
              && IsBestPrice(Sanitize(raw), Quote(SideKey(sq.key, Call), sq.callBid, sq.callAsk))
              && IsBestPrice(Sanitize(raw), Quote(SideKey(sq.key, Put), sq.putBid, sq.putAsk))
  {
    var agg := Aggregate(Sanitize(raw), BestPrice);
    Pivot(agg)
  }

  /**
   The prototype scripts' table: no sanity filter, and duplicates resolve to
   the first quote seen for the option.
   */
  function FirstQuoteTable(raw: seq<Quote>): (r: seq<StrikeQuote>)
    ensures DistinctBy(r, RowKey)
    ensures forall k :: k in KeysOf(r, RowKey) <==>
              SideKey(k, Call) in KeysOf(raw, QuoteKey) && SideKey(k, Put) in KeysOf(raw, QuoteKey)
    ensures forall sq :: sq in r ==>
              && IsFirstSeen(raw, Quote(SideKey(sq.key, Call), sq.callBid, sq.callAsk))
              && IsFirstSeen(raw, Quote(SideKey(sq.key, Put), sq.putBid, sq.putAsk))
  {
    var agg := Aggregate(raw, FirstSeen);
    Pivot(agg)
  }
}
