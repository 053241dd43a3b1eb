/**
 Ranking and reporting over scan output: the threshold-and-sort selector of
 results/select_opps.py, and the views that `run` in
 results/arbitrage_opp_update.py derives from its candidates (top rows by
 profit, a date window, and the per-day summary).
 */
module Ranker {
  import opened Seqs
  import opened Boxes
  import opened Scanner
  import opened Prototypes

  /** Keys are non-increasing along `s` (sort_values(..., ascending=False)). */
  predicate SortedDescBy<T>(s: seq<T>, key: T -> real)
  {
    forall i, j :: 0 <= i < j < |s| ==> key(s[i]) >= key(s[j])
  }

  function Negated<T>(key: T -> real): T -> real
  {
    (x: T) => -key(x)
  }

  /** Descending sort by `key`; ties keep no promised order. */
  function SortDescBy<T>(s: seq<T>, key: T -> real): (r: seq<T>)
    ensures SortedDescBy(r, key)
    ensures multiset(r) == multiset(s)
    ensures |r| == |s|
  {
    SortBy(s, Negated(key))
  }

  /** The `n` rows of largest key, largest first (sort_values(key, ascending=False).head(n)). */
  function TopBy<T>(s: seq<T>, key: T -> real, n: nat): (r: seq<T>)
    ensures |r| == Min(n, |s|)
    ensures multiset(r) <= multiset(s)
    ensures |s| <= n ==> multiset(r) == multiset(s)
    ensures SortedDescBy(r, key)
    ensures forall x, y :: x in r && y in multiset(s) - multiset(r) ==> key(x) >= key(y)
  {
    var ranked := SortDescBy(s, key);
    var m := Min(n, |s|);
    DescSplit(ranked, s, key, m);
    ranked[..m]
  }

  /**
   Cutting a descending permutation of `s` at `m`: the prefix is a
   descending sub-multiset of `s`, all of it when the cut is at the end, and
   nothing in it has a smaller key than anything left out.
   */
  lemma DescSplit<T>(ranked: seq<T>, s: seq<T>, key: T -> real, m: nat)
    requires SortedDescBy(ranked, key) && multiset(ranked) == multiset(s) && m <= |ranked|
    ensures multiset(ranked[..m]) <= multiset(s)
    ensures m == |s| ==> multiset(ranked[..m]) == multiset(s)
    ensures SortedDescBy(ranked[..m], key)
    ensures forall x, y :: x in ranked[..m] && y in multiset(s) - multiset(ranked[..m]) ==> key(x) >= key(y)
  {
    PrefixRest(ranked, s, m);
    forall i, j | 0 <= i < j < m ensures key(ranked[..m][i]) >= key(ranked[..m][j]) {
      assert ranked[..m][i] == ranked[i] && ranked[..m][j] == ranked[j];
    }
    forall x, y | x in ranked[..m] && y in multiset(ranked[m..]) ensures key(x) >= key(y) {
      var a :| 0 <= a < m && ranked[..m][a] == x;
      assert y in ranked[m..];
      var b :| 0 <= b < |ranked| - m && ranked[m..][b] == y;
      assert ranked[a] == x && ranked[m + b] == y;
    }
  }

  function Above<T>(key: T -> real, threshold: real): T -> bool
  {
    (x: T) => key(x) > threshold
  }

  /** df[df[key] > threshold].sort_values(key, ascending=False): the rows strictly above the threshold, best first. */
  function SelectAbove<T(!new)>(s: seq<T>, key: T -> real, threshold: real): (r: seq<T>)
    ensures forall x :: x in r <==> x in s && key(x) > threshold
    ensures multiset(r) == multiset(Filter(s, Above(key, threshold)))
    ensures multiset(r) <= multiset(s)
    ensures SortedDescBy(r, key)
  {
    var kept := Filter(s, Above(key, threshold));
    var r := SortDescBy(kept, key);
    SortedByMembers(r, kept);
    r
  }

  /** The threshold of results/select_opps.py. */
  const SelectThreshold: real := 0.05

  /** Rows printed per view by results/select_opps.py. */
  const SelectShown: nat := 20

  /** Rows printed per view by `run`. */
  const RunShown: nat := 15

  /** Days printed from the daily summary. */
  const DaysShown: nat := 20

  /** df_buy / df_sell: every row strictly above 0.05 on `key`, best first. */
  function SelectOpps(rows: seq<Opportunity>, key: Opportunity -> real): (r: seq<Opportunity>)
    ensures forall o :: o in r <==> o in rows && key(o) > SelectThreshold
    ensures multiset(r) == multiset(Filter(rows, Above(key, SelectThreshold)))
    ensures multiset(r) <= multiset(rows)
    ensures SortedDescBy(r, key)
  {
    SelectAbove(rows, key, SelectThreshold)
  }

  /** The printed head(20) of a selection: its min(20, n) best rows, best first. */
  function ShowSelected(rows: seq<Opportunity>, key: Opportunity -> real): (r: seq<Opportunity>)
    ensures |r| == Min(SelectShown, |Filter(rows, Above(key, SelectThreshold))|)
    ensures multiset(r) <= multiset(Filter(rows, Above(key, SelectThreshold)))
    ensures forall o :: o in r ==> o in rows && key(o) > SelectThreshold
    ensures SortedDescBy(r, key)
    ensures forall x, y :: x in r && y in rows && key(y) > SelectThreshold && y !in r ==> key(x) >= key(y)
  {
    var sel := SelectOpps(rows, key);
    var r := TopBy(sel, key, SelectShown);
    assert |sel| == |multiset(sel)| == |Filter(rows, Above(key, SelectThreshold))|;
    forall o | o in r ensures o in sel {
      assert o in multiset(r);
    }
    forall x, y | x in r && y in rows && key(y) > SelectThreshold && y !in r ensures key(x) >= key(y) {
      assert y in multiset(sel) && y !in multiset(r);
    }
    r
  }

  /** res.sort_values(key, ascending=False).head(15). */
  function TopCandidates(res: seq<Candidate>, key: Candidate -> real): (r: seq<Candidate>)
    ensures |r| == Min(RunShown, |res|)
    ensures multiset(r) <= multiset(res)
    ensures SortedDescBy(r, key)
    ensures forall x, y :: x in r && y in multiset(res) - multiset(r) ==> key(x) >= key(y)
  {
    TopBy(res, key, RunShown)
  }

  function InWindow(start: int, end: int): Candidate -> bool
  {
    (c: Candidate) => start <= c.key.date <= end
  }

  /** The candidates dated within [start, end], in their order. */
  function Window(res: seq<Candidate>, start: int, end: int): (w: seq<Candidate>)
    ensures forall c :: c in w <==> c in res && start <= c.key.date <= end
    ensures multiset(w) <= multiset(res)
    ensures forall c :: multiset(w)[c] == if start <= c.key.date <= end then multiset(res)[c] else 0
  {
    FilterCount(res, InWindow(start, end));
    Filter(res, InWindow(start, end))
  }

  /** best_profit: the better of the buy and the sell profit. */
  function BestProfit(c: Candidate): (b: real)
    ensures b >= c.box.econ.profitBuy && b >= c.box.econ.profitSell
    ensures b == c.box.econ.profitBuy || b == c.box.econ.profitSell
  {
    MaxReal(c.box.econ.profitBuy, c.box.econ.profitSell)
  }

  /** One line of the daily summary. */
  datatype DaySummary = DaySummary(date: int, count: nat, maxProfit: real)

  function DayOf(s: DaySummary): int { s.date }

  function MaxProfitOf(s: DaySummary): real { s.maxProfit }

  function OnDate(d: int): Candidate -> bool
  {
    (c: Candidate) => c.key.date == d
  }

  function CandDate(c: Candidate): int { c.key.date }

  /** `s` is the summary of its date over `rows`: the row count, and the best profit, attained. */
  ghost predicate Describes(rows: seq<Candidate>, s: DaySummary)
  {
    && s.count == |Filter(rows, OnDate(s.date))|
    && (forall c :: c in rows && c.key.date == s.date ==> BestProfit(c) <= s.maxProfit)
    && (exists c :: c in rows && c.key.date == s.date && BestProfit(c) == s.maxProfit)
  }

  /** Sum of the n_candidates column. */
  function Total(days: seq<DaySummary>): nat
  {
    if |days| == 0 then 0 else days[0].count + Total(days[1..])
  }

  function FirstDay(c: Candidate): DaySummary
  {
    DaySummary(c.key.date, 1, BestProfit(c))
  }

  function Bump(s: DaySummary, c: Candidate): DaySummary
  {
    DaySummary(s.date, s.count + 1, MaxReal(s.maxProfit, BestProfit(c)))
  }

  /** Folds one more candidate into the summary lines `acc`. */
  function Record(acc: seq<DaySummary>, c: Candidate): (r: seq<DaySummary>)
    requires DistinctBy(acc, DayOf)
    ensures KeysOf(r, DayOf) == KeysOf(acc, DayOf) + {c.key.date}
    ensures DistinctBy(r, DayOf)
    ensures forall s :: s in r && s.date != c.key.date ==> s in acc
    ensures forall s :: s in r && s.date == c.key.date ==>
              (s == FirstDay(c) && c.key.date !in KeysOf(acc, DayOf))
              || (exists t :: t in acc && t.date == c.key.date && s == Bump(t, c))
    ensures Total(r) == Total(acc) + 1
  {
    if |acc| == 0 then
      KeysOfCons(FirstDay(c), [], DayOf);
      assert [FirstDay(c)] == [FirstDay(c)] + [];
      [FirstDay(c)]
    else
      assert acc == [acc[0]] + acc[1..];
      DistinctTail(acc, DayOf);
      if acc[0].date == c.key.date then
        DistinctCons(Bump(acc[0], c), acc[1..], DayOf);
        KeysOfCons(Bump(acc[0], c), acc[1..], DayOf);
        KeysOfCons(acc[0], acc[1..], DayOf);
        [Bump(acc[0], c)] + acc[1..]
      else
        var t := Record(acc[1..], c);
        DistinctCons(acc[0], t, DayOf);
        KeysOfCons(acc[0], t, DayOf);
        KeysOfCons(acc[0], acc[1..], DayOf);
        assert ([acc[0]] + t)[1..] == t;
        [acc[0]] + t
  }

  /** A filter of one element. */
  lemma FilterSingle<T(!new)>(x: T, p: T -> bool)
    ensures |Filter([x], p)| == if p(x) then 1 else 0
  {
    assert [x][1..] == [];
  }

  /** Appending a candidate of one date changes the count of that date only, by one. */
  lemma CountAppend(init: seq<Candidate>, last: Candidate, d: int)
    ensures |Filter(init + [last], OnDate(d))| == |Filter(init, OnDate(d))| + (if last.key.date == d then 1 else 0)
  {
    FilterConcat(init, [last], OnDate(d));
    FilterSingle(last, OnDate(d));
  }

  /** A summary line of `init` stays one once a candidate of another date is appended. */
  lemma DescribesExtends(init: seq<Candidate>, last: Candidate, s: DaySummary)
    requires Describes(init, s)
    requires s.date != last.key.date
    ensures Describes(init + [last], s)
  {
    var rows := init + [last];
    CountAppend(init, last, s.date);
    forall c | c in rows && c.key.date == s.date ensures BestProfit(c) <= s.maxProfit {
      assert c in init;
    }
    var w :| w in init && w.key.date == s.date && BestProfit(w) == s.maxProfit;
    assert w in rows;
  }

  /** The first candidate of a date is summarised by its own line. */
  lemma DescribesFirst(init: seq<Candidate>, last: Candidate)
    requires last.key.date !in KeysOf(init, CandDate)
    ensures Describes(init + [last], FirstDay(last))
  {
    var rows := init + [last];
    var d := last.key.date;
    assert forall c :: c in init ==> CandDate(c) != d;
    FilterNone(init, OnDate(d));
    CountAppend(init, last, d);
    forall c | c in rows && c.key.date == d ensures BestProfit(c) <= BestProfit(last) {
      assert c in init || c == last;
    }
    assert last in rows;
  }

  /** Bumping the line of a date with a further candidate of that date keeps it a summary. */
  lemma DescribesBumped(init: seq<Candidate>, last: Candidate, t: DaySummary)
    requires Describes(init, t)
    requires t.date == last.key.date
    ensures Describes(init + [last], Bump(t, last))
  {
    var rows := init + [last];
    var s := Bump(t, last);
    CountAppend(init, last, t.date);
    forall c | c in rows && c.key.date == s.date ensures BestProfit(c) <= s.maxProfit {
      if c != last {
        assert c in init;
      }
    }
    var w :| w in init && w.key.date == t.date && BestProfit(w) == t.maxProfit;
    assert w in rows && last in rows;
    if t.maxProfit >= BestProfit(last) {
      assert s.maxProfit == BestProfit(w);
    } else {
      assert s.maxProfit == BestProfit(last);
    }
  }

  /** Folding a candidate into lines that summarise `init` gives lines that summarise `init + [last]`. */
  lemma RecordDescribes(init: seq<Candidate>, last: Candidate, acc: seq<DaySummary>)
    requires DistinctBy(acc, DayOf)
    requires KeysOf(acc, DayOf) == KeysOf(init, CandDate)
    requires forall s :: s in acc ==> Describes(init, s)
    ensures forall s :: s in Record(acc, last) ==> Describes(init + [last], s)
  {
    forall s | s in Record(acc, last) ensures Describes(init + [last], s) {
      if s.date != last.key.date {
        DescribesExtends(init, last, s);
      } else if s == FirstDay(last) && last.key.date !in KeysOf(acc, DayOf) {
        DescribesFirst(init, last);
      } else {
        var t :| t in acc && t.date == last.key.date && s == Bump(t, last);
        DescribesBumped(init, last, t);
      }
    }
  }

  /**
   The daily summary (groupby("date").agg(size, max)): one line per date that
   occurs in `rows`, with that date's row count and best profit; the counts
   add up to the number of rows.
   */
  function Summarise(rows: seq<Candidate>): (days: seq<DaySummary>)
    ensures DistinctBy(days, DayOf)
    ensures KeysOf(days, DayOf) == KeysOf(rows, CandDate)
    ensures forall s :: s in days ==> Describes(rows, s)
    ensures Total(days) == |rows|
  {
    if |rows| == 0 then []
    else
      var init := rows[..|rows| - 1];
      var last := rows[|rows| - 1];
      assert rows == init + [last];
      var acc := Summarise(init);
      KeysOfSnoc(init, last, CandDate);
      RecordDescribes(init, last, acc);
      Record(acc, last)
  }

  /** The printed daily summary: the min(20, days) days of highest best profit, highest first, one line per day. */
  function RankedDays(res: seq<Candidate>, start: int, end: int): (r: seq<DaySummary>)
    ensures SortedDescBy(r, MaxProfitOf)
    ensures DistinctBy(r, DayOf)
    ensures |r| == Min(DaysShown, |Summarise(Window(res, start, end))|)
    ensures multiset(r) <= multiset(Summarise(Window(res, start, end)))
    ensures forall s :: s in r ==> Describes(Window(res, start, end), s) && start <= s.date <= end
    ensures forall x, y :: x in r && y in multiset(Summarise(Window(res, start, end))) - multiset(r) ==> x.maxProfit >= y.maxProfit
  {
    var w := Window(res, start, end);
    var days := Summarise(w);
    var r := TopBy(days, MaxProfitOf, DaysShown);
    DistinctSub(days, r, DayOf);
    ShownDaysDescribe(w, days, r, start, end);
    r
  }

  /** Every shown line of a window's summary describes its date over the window, and that date lies in the window. */
  lemma ShownDaysDescribe(w: seq<Candidate>, days: seq<DaySummary>, r: seq<DaySummary>, start: int, end: int)
    requires forall c :: c in w ==> start <= c.key.date <= end
    requires forall s :: s in days ==> Describes(w, s)
    requires multiset(r) <= multiset(days)
    ensures forall s :: s in r ==> Describes(w, s) && start <= s.date <= end
  {
    forall s | s in r ensures Describes(w, s) && start <= s.date <= end {
      assert s in multiset(r);
      assert s in days;
      var c :| c in w && c.key.date == s.date && BestProfit(c) == s.maxProfit;
    }
  }
}
