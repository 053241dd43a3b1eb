# Box-spread arbitrage engine — a Dafny model

This project models the box-spread arbitrage scanner of the `results/`
scripts. The pipeline takes raw option quotes as an already-parsed sequence
and runs these steps:

- drops insane quotes (`bid < 0` or `ask < bid`);
- collapses duplicate quotes of one option to its best bid and best ask;
- joins the call and put side of each strike into one row;
- drops illiquid strikes (a non-positive bid, or a relative spread above `MAX_SPREAD_PCT`);
- scans each (date, symbol, expiration) group, using every strike pair `i < j`
  or only neighbouring strikes. Large groups are first cut down to their
  tightest-spread strikes.

For each pair K1 < K2 it computes the long box (long call K1, short call K2,
long put K2, short put K1) and the mirror short box:

- `cost_buy = C1a − C2b + P2a − P1b`
- `proceeds_sell = C1b − C2a + P2b − P1a`
- the terminal value `K2 − K1`, discounted by `exp(−R·T)`
- `profit_buy = payoff_pv − cost_buy`
- `profit_sell = proceeds_sell − payoff_pv`

A pair is emitted when either profit reaches `MIN_PROFIT`. The candidates are
then ranked, windowed by date and summarised per day.

The model also covers:

- the two earlier prototypes, which keep the first quote per option and emit
  every adjacent pair or every pair with no filter and no gate;
- the threshold-and-sort selector `results/select_opps.py`.

Prices are `real`, so every identity holds exactly. Dates are integer day
numbers. `np.exp` is a parameter constrained by `Boxes.ExpLike`:
`exp(0) = 1` and `0 < exp(x) ≤ 1` for `x ≤ 0`.

Modules:

- `Seqs` (`seqs.dfy`): generic order-preserving filter, key sort,
  first-appearance de-duplication and unique-key predicate.
- `Options`, `Quotes` (`quotes.dfy`): quotes, sanity filter, duplicate
  collapsing under two policies, and the call/put pivot.
- `Liquidity` (`liquidity.dfy`): spread percentages and the spread filter.
- `Boxes` (`boxes.dfy`): legs, payoff at expiry, establishing cost, the
  economics of one pair, and discounting.
- `Pairs` (`pairs.dfy`): the one pair generator behind both scan modes.
- `Scanner` (`scanner.dfy`): `scan_boxes` and `run` of the update script.
- `Prototypes` (`prototypes.dfy`): `results/arbitrage_opp.py` and
  `results/arbitrage_opp_no_adj.py`.
- `Ranker` (`ranker.dfy`): `results/select_opps.py`, plus the top-N views,
  date window and daily summary of `run`.

## Model

| member | source | states |
|---|---|---|
| Quotes.Sanitize | results/arbitrage_opp_update.py:34 | a raw quote is kept exactly when `0 ≤ bid ≤ ask`; nothing else is added |
| Quotes.SanitizeIdempotent | results/arbitrage_opp_update.py:34 | re-applying the sanity filter changes nothing |
| Quotes.Merge | results/arbitrage_opp_update.py:39-42 | folding one quote into uniquely keyed rows adds its key and keeps keys unique; rows of other options are untouched; the row of its option is the quote itself (new option) or the old row combined with it |
| Quotes.Aggregate | results/arbitrage_opp_update.py:39-42 | one row per option quoted, exactly the quoted options; under BestPrice each row's bid is the maximum and its ask the minimum of that option's quotes, both attained; under FirstSeen each row is the option's earliest quote |
| Quotes.BestPriceCanCross | results/arbitrage_opp_update.py:39-42 | two sane quotes (1, 2) and (3, 4) for one option collapse to the crossed row bid 3, ask 2 |
| Quotes.Find | results/arbitrage_opp_update.py:45-50 | the lookup returns a row of the wanted option, or none when no row carries it |
| Quotes.PivotFrom | results/arbitrage_opp_update.py:45-53 | every pivot row joins a call row and a put row of the aggregate at one strike; every call with a matching put yields a row; unique option keys give unique strike keys |
| Quotes.Pivot | results/arbitrage_opp_update.py:45-53 | inner join: a strike has a row exactly when both its call and its put are present; rows are built from the aggregate; strikes are unique |
| Quotes.QuoteTable | results/arbitrage_opp_update.py:31-53 | the update script's table `p`: unique strikes, a strike present exactly when both of its sides have a sane quote, and each side carrying the best bid and best ask of its sane quotes |
| Quotes.FirstQuoteTable | results/arbitrage_opp.py:11-19 | the prototypes' pivot: unique strikes, present exactly when both sides are quoted, and each side carrying the first quote of its option |
| Liquidity.SpreadBase | results/arbitrage_opp_update.py:56-57 | the spread denominator `max(ask, 1e-9)` is the larger of the ask and the floor: it is one of the two, at least both, and positive |
| Liquidity.LiquidityFilter | results/arbitrage_opp_update.py:59-63 | a strike is kept exactly when both bids are positive and both spread percentages are at most the maximum; unique strikes stay unique |
| Liquidity.LiquidityFilterIdempotent | results/arbitrage_opp_update.py:59-63 | applying the spread filter twice equals applying it once |
| Liquidity.SpreadWithinIff | results/arbitrage_opp_update.py:56-62 | the percentage test is equivalent to `ask − bid ≤ MAX_SPREAD_PCT · max(ask, 1e-9)` |
| Liquidity.SpreadPctBounds | results/arbitrage_opp_update.py:56-57 | on an uncrossed quote with a non-negative bid the spread percentage lies in [0, 1], and below 1 when the bid is positive |
| Liquidity.CrossedQuotePasses | results/arbitrage_opp_update.py:56-63 | a crossed quote with positive prices has a negative spread and passes the filter at any non-negative maximum |
| Boxes.LongBoxPayoffFixed | results/arbitrage_opp_update.py:66-71 | long call K1, short call K2, long put K2, short put K1 pays K2 − K1 at expiry for every settlement price |
| Boxes.ShortBoxPayoffFixed | results/arbitrage_opp_update.py:66-71 | the mirror position owes K2 − K1 at expiry for every settlement price |
| Boxes.Mirror | results/arbitrage_opp_update.py:70 | the opposite position has the same legs, each taken the other way |
| Boxes.MirrorInvolution | results/arbitrage_opp_update.py:70 | taking the opposite of the opposite position gives back the original legs |
| Boxes.BoxEconomics | results/arbitrage_opp_update.py:104-110 | cost_buy is the ask-paid / bid-received cost of the four long-box legs and proceeds_sell is minus that of the short box; profit_buy + profit_sell is minus the sum of the four bid/ask spreads |
| Boxes.BoxProfits | results/arbitrage_opp_update.py:104-110 | for any settlement price, payoff_pv is the discounted expiry value of the long box, profit_buy that value less the cost of the long box, profit_sell the discounted expiry value of the short box less its establishing cost |
| Boxes.NoDoubleProfit | results/arbitrage_opp_update.py:104-110 | with uncrossed quotes profit_buy + profit_sell ≤ 0 |
| Boxes.YearsToExpiry | results/arbitrage_opp_update.py:88-90 | T ≥ 0; 365·T is the day count when expiry is not before the date; T = 0 otherwise |
| Boxes.DiscountFactor | results/arbitrage_opp_update.py:91 | for an exp-like function, R = 0 gives 1, and R ≥ 0 with T ≥ 0 gives a factor in (0, 1] |
| Boxes.ZeroRateUndiscounted | results/arbitrage_opp_update.py:91-104 | with R = 0, payoff_pv == K2 − K1 |
| Boxes.ExpiredUndiscounted | results/arbitrage_opp_update.py:88-91 | an expiry on or before the quote date gives T = 0 and a factor of 1 whatever R is |
| Boxes.WorkedBuyBox | results/arbitrage_opp_update.py:104-107 | K1 = 100, K2 = 105, C1a = 6, C2b = 1, P2a = 3.5, P1b = 0.5, undiscounted: payoff 5, cost 8, profit_buy −3 |
| Pairs.RowPairs | results/arbitrage_opp_update.py:124 | the inner loop visits (i, j), (i, j + 1), …, (i, n − 1) |
| Pairs.PairsFrom | results/arbitrage_opp_update.py:119-124 | the nested loops from row i visit exactly the pairs i ≤ p.i < p.j < n, in lexicographic order, (n − i)(n − i − 1)/2 of them |
| Pairs.AllPairs | results/arbitrage_opp_update.py:119-124 | exactly the pairs i < j < n, lexicographic, n(n − 1)/2 of them |
| Pairs.AdjacentPairs | results/arbitrage_opp_update.py:96 | the pairs (k, k + 1) for k < n − 1 in order, n − 1 of them |
| Pairs.PairsOnce | results/arbitrage_opp_update.py:95-124 | neither the nested loops nor the adjacent loop visit a pair twice |
| Pairs.AdjacentIsRestrictedAllPairs | results/arbitrage_opp_update.py:95-124 | the adjacent pair list is the all-pairs list restricted to j == i + 1, in the same order |
| Scanner.Downselect | results/arbitrage_opp_update.py:77-80 | keeps min(cap, n) rows of the group, and no kept row has a larger spread score than any dropped row |
| Scanner.Ladder | results/arbitrage_opp_update.py:73-82 | the scanned strikes: min(cap, n) of the group's rows, all of them when n ≤ cap, the tightest-spread ones otherwise, ascending by strike, strictly ascending when strikes are unique |
| Scanner.LadderMembers | results/arbitrage_opp_update.py:73-82 | every scanned strike belongs to the group, and with no cut every strike of the group is scanned |
| Scanner.ScanPairs | results/arbitrage_opp_update.py:119-135 | one box per evaluated pair, in pair order, built from the ladder strikes at (i, j) |
| Scanner.EmitGated | results/arbitrage_opp_update.py:112-139 | a box is emitted exactly when it is the box of an evaluated pair and passes the gate `profit_buy ≥ MIN_PROFIT or profit_sell ≥ MIN_PROFIT` |
| Scanner.GateFusion | results/arbitrage_opp_update.py:112-139 | the loop with the gate fused in equals the gate applied to all evaluated boxes |
| Scanner.PairsFor | results/arbitrage_opp_update.py:95-124 | the mode's pairs are below n; at most n(n − 1)/2 of them; n − 1 of them in adjacent mode |
| Scanner.EvaluatedPairs | results/arbitrage_opp_update.py:77-85 | no pairs for fewer than 2 kept strikes; at most C(min(n, MAX_STRIKES_PER_EXP), 2) pairs; min(n, cap) − 1 in adjacent mode |
| Scanner.EmittedFromPair | results/arbitrage_opp_update.py:119-139 | on a strictly ascending ladder every emitted box has K1 < K2 and is the box of two ladder strikes |
| Scanner.ScanBoxes | results/arbitrage_opp_update.py:72-141 | at most as many boxes as evaluated pairs; every box has K1 < K2 and passes the gate |
| Scanner.ScanGated | results/arbitrage_opp_update.py:84-141 | scan_boxes' output is exactly the boxes of the evaluated pairs on the scanned ladder, in pair order, that pass the gate `profit_buy ≥ MIN_PROFIT or profit_sell ≥ MIN_PROFIT` |
| Scanner.ScanPairsDistinct | results/arbitrage_opp_update.py:95-135 | on a strictly ascending ladder, pairs visited once give boxes no two of which share both K1 and K2 |
| Scanner.ScanDistinct | results/arbitrage_opp_update.py:84-141 | scan_boxes writes each box once: no two boxes of one group's output share both K1 and K2 |
| Scanner.TwoStrikeGroup | results/arbitrage_opp_update.py:72-141 | with the configured MIN_PROFIT = 0.25 and MAX_STRIKES_PER_EXP = 250 (lines 12 and 21), a group of two strikes K1 < K2 yields, in either mode, its one box when profit_buy or profit_sell reaches 0.25, and nothing otherwise |
| Scanner.ScanFrom | results/arbitrage_opp_update.py:112-139 | every box of scan_boxes is the box of one of the evaluated pairs on the scanned ladder |
| Scanner.ScanFromRows | results/arbitrage_opp_update.py:72-141 | every emitted box is the box of two strikes lo < hi of the group |
| Scanner.AllPairsScanComplete | results/arbitrage_opp_update.py:119-139 | with no strike cut, all-pairs mode emits a box exactly when it is the gated box of two strikes K1 < K2 of the group |
| Scanner.AdjacentScanComplete | results/arbitrage_opp_update.py:95-114 | with no strike cut, adjacent mode emits a box exactly when it is the gated box of two consecutive strikes of the group |
| Scanner.LadderNeighbours | results/arbitrage_opp_update.py:95-97 | neighbours on the uncut ladder are consecutive strikes of the group |
| Scanner.AdjacentIffNeighbour | results/arbitrage_opp_update.py:95-97 | on an ascending ladder a pair is (i, i + 1) exactly when its box spans neighbouring strikes |
| Scanner.AdjacentScanIsRestricted | results/arbitrage_opp_update.py:95-135 | the adjacent scan equals the all-pairs scan restricted to neighbouring strikes, in the same order |
| Scanner.AdjacentModeIsRestricted | results/arbitrage_opp_update.py:95-141 | scan_boxes in adjacent mode equals scan_boxes in all-pairs mode restricted to neighbouring strikes, in the same order |
| Scanner.GroupRows | results/arbitrage_opp_update.py:146 | a group's rows are exactly the table rows of that group, and they have unique strikes when the table has unique keys |
| Scanner.GroupKeys | results/arbitrage_opp_update.py:146 | each group of the table appears exactly once |
| Scanner.Tag | results/arbitrage_opp_update.py:137-138 | one row per emitted box, in box order, tagged with the group and its T; boxes that never repeat give rows that never repeat |
| Scanner.RunGroups | results/arbitrage_opp_update.py:145-147 | a candidate exists exactly for each box of each listed group's scan, tagged with its group and its T; when no group is listed twice, no candidate is written twice |
| Scanner.LiquidTable | results/arbitrage_opp_update.py:31-63 | the filtered table has unique strikes and holds exactly the liquid rows of the quote table |
| Scanner.Run | results/arbitrage_opp_update.py:144-152 | every candidate is a box scan_boxes emits for its group of the liquid table; it has K1 < K2, passes the gate and has T ≥ 0; it is built from two liquid strikes of its group discounted by exp(−R·T); every gated box of every group is a candidate, and no candidate is written twice; with R = 0, payoff_pv == K2 − K1 |
| Scanner.CandidateStrikes | results/arbitrage_opp_update.py:144-152 | both strikes of a candidate are rows of the quote table of its group, at the candidate's K1 and K2 |
| Scanner.MissingPutExcluded | results/arbitrage_opp_update.py:45-53 | a strike with no sane put quote is neither K1 nor K2 of any candidate of its group |
| Scanner.ParityChainEmitsNothing | results/arbitrage_opp_update.py:104-112 | a zero-spread chain satisfying put-call parity emits nothing undiscounted at a positive MIN_PROFIT |
| Prototypes.StrikeOrder | results/arbitrage_opp.py:26-27 | the group sorted by strike, with all its rows, strictly ascending for unique strikes |
| Prototypes.AdjacentRows | results/arbitrage_opp.py:26-45 | exactly n − 1 rows, row k the box of sorted strikes k and k + 1, consecutive rows chained K2 = next K1; every row K1 < K2 and undiscounted |
| Prototypes.AdjacentRowsComplete | results/arbitrage_opp.py:30-45 | a row is emitted exactly when it is the undiscounted box of two consecutive strikes of the group |
| Prototypes.AllPairsRows | results/arbitrage_opp_no_adj.py:24-47 | exactly n(n − 1)/2 rows (none below 2 strikes) in (K1, K2) lexicographic order; every row K1 < K2 and undiscounted |
| Prototypes.ScanStrikeOrder | results/arbitrage_opp_no_adj.py:29-35 | nested-loop pair order on an ascending ladder gives rows ordered by (K1, K2) |
| Prototypes.AllPairsRowsComplete | results/arbitrage_opp_no_adj.py:29-47 | a row is emitted exactly when it is the undiscounted box of two strikes K1 < K2 of the group |
| Prototypes.AdjacentRowsAreRestricted | results/arbitrage_opp_no_adj.py:29-47 | the adjacent prototype's rows are the all-pairs prototype's rows of neighbouring strikes, in the same order |
| Prototypes.ScanRowsOnce | results/arbitrage_opp_no_adj.py:29-47 | each prototype loop writes no row of a group twice |
| Prototypes.TagGroup | results/arbitrage_opp.py:45 | one row per box, in box order, tagged with the group; boxes that never repeat give rows that never repeat |
| Prototypes.Collect | results/arbitrage_opp.py:25-45 | a row exists exactly for each box of each listed group's scan, tagged with its group; when no group is listed twice, no row is written twice |
| Prototypes.PrototypeTable | results/arbitrage_opp_no_adj.py:11-19 | `aggfunc="first"`: unique strikes, present exactly when both the call and the put are quoted, each side carrying the first quote of its option |
| Prototypes.AdjacentCollected | results/arbitrage_opp.py:24-45 | over any table with unique keys, every adjacent-prototype row is the undiscounted box of two consecutive strikes of its group, and every such pair yields a row |
| Prototypes.AllPairsCollected | results/arbitrage_opp_no_adj.py:22-47 | over any table with unique keys, every all-pairs row is the undiscounted box of two strikes K1 < K2 of its group, and every such pair yields a row |
| Prototypes.AdjacentPrototype | results/arbitrage_opp.py:24-45 | every row is the undiscounted box of two consecutive strikes of its group, and every such pair yields a row, once: no threshold, no filter |
| Prototypes.AllPairsPrototype | results/arbitrage_opp_no_adj.py:22-47 | every row is the undiscounted box of two strikes K1 < K2 of its group, and every such pair yields a row, once |
| Ranker.SortDescBy | results/select_opps.py:6-7 | a non-increasing permutation of the input |
| Ranker.TopBy | results/arbitrage_opp_update.py:162-165 | head(n) of a descending sort: min(n, len) rows of the input, non-increasing, none below any row left out |
| Ranker.SelectAbove | results/select_opps.py:6-7 | exactly the rows strictly above the threshold, as a permutation of the filtered rows, sorted non-increasing |
| Ranker.SelectOpps | results/select_opps.py:6-7 | df_buy / df_sell: a permutation of the rows whose profit is strictly above 0.05, sorted non-increasing |
| Ranker.ShowSelected | results/select_opps.py:10-13 | head(20) of the selection: min(20, n) of the n qualifying rows, non-increasing, none below a qualifying row left out |
| Ranker.TopCandidates | results/arbitrage_opp_update.py:161-165 | head(15) of the candidates by profit, non-increasing, none below a candidate left out |
| Ranker.Window | results/arbitrage_opp_update.py:168 | exactly the candidates dated within the window, each kept as many times as it occurs; a candidate outside the window is not kept |
| Ranker.BestProfit | results/arbitrage_opp_update.py:179 | best_profit is the larger of profit_buy and profit_sell |
| Ranker.Record | results/arbitrage_opp_update.py:179-182 | folding one candidate adds its date, keeps dates unique, touches only its own date's line (new line, or count + 1 and max updated), and raises the total count by one |
| Ranker.Summarise | results/arbitrage_opp_update.py:179-182 | one line per date occurring among the rows; each line's count is that date's row count and its max_profit the attained maximum of best_profit; counts sum to the number of rows |
| Ranker.RankedDays | results/arbitrage_opp_update.py:179-186 | head(20) of the window's daily summary: min(20, days) of its lines, one per date, descending by max_profit, each describing its date, none below a line left out |

## Left out

- CSV reading and writing, `pd.to_numeric(errors="coerce")`, `dropna` on parse failures, and `print`: the input is an already-parsed sequence of quotes with real prices, and the views are returned, not printed.
- Floating point: prices are exact reals, `np.maximum(ask, 1e-9)` is exact, and `(exp − d).days / 365.0` is exact real division of integer day numbers.
- `np.exp` is a parameter. Only `exp(0) = 1` and `0 < exp(x) ≤ 1` for `x ≤ 0` are assumed, stated by `Boxes.ExpLike`.
- Group order: the model lists groups and strikes in order of first appearance. `pivot_table` and the prototypes' `groupby` sort their keys, so rows of different groups may come out in another order than pandas'; within a group the strike order is the source's.
- Tie-breaking in `sort_values(...).head(...)`: equal scores or profits may be kept or ordered either way. The contracts promise the multiset and the order, not which of several tied rows is kept. The spread-score downselection, the ranking views and the daily ranking are all stated this way.
- Ranking in the source is an unstable descending sort with no secondary key, and the model states no more order than that.
- The COVID window's date strings `2020-02-15` / `2020-04-30` become a generic integer date range [start, end] (`Ranker.Window`, `Ranker.RankedDays`).
- `call_put` values other than Call and Put: the model's side type has only these two, so rows with other labels cannot be expressed.
- `Scanner.ScanBoxes` and the scans require unique strikes in a group. The source gets this from the pivot's unique index, and the model proves it of every table it builds (`Quotes.QuoteTable`, `Liquidity.LiquidityFilter`, `Scanner.GroupRows`).
- `Scanner.AllPairsScanComplete`, `Scanner.AdjacentScanComplete`: completeness is stated for groups within the strike cap. Above the cap the scanned strikes are the downselected ladder, whose contents `Scanner.Ladder` states.
- `src/volatility.py`, `main.py`, `results/plot_time_series.py`, `results/plot_t_series.py`: market-data download, volatility estimation and plotting, which share no state with the engine.
