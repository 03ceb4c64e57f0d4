# Open-interest dashboard core, modelled in Dafny

This project models the data logic of `app.py`, a Streamlit dashboard. The
dashboard watches the first 100 symbols of a list ordered by each symbol's
peak dollar open interest (`MAX(oi_usd) DESC`, app.py:51). It ranks them by
how fast their open interest has grown. It covers three pieces:

- **The downsampler** (`downsample_data`, the definition at app.py:131-143,
  which shadows the earlier one at app.py:103-107). A series no longer than
  `target_points` is returned as is. Otherwise every `step`-th row is kept,
  with `step = len // target_points`, and the last row is appended when the
  stride missed it. The model is generic in the row type and selects rows by
  position, as `iloc` does (module `Sampling`).
- **The per-symbol metrics** (the body of the loop at app.py:367-421). This
  covers the minimum and current open interest and the growth in tokens and
  in dollars. It also covers the intensity ladder: market cap first, then
  circulating supply, then the minimum open interest down-weighted by 0.1,
  else 0. It is lifted into a pure function `Metrics.Compute` over a
  non-empty row sequence and an optional reference record.
- **Ranking and de-duplication**. These are:
  - the loop building `ranking_data` (`Ranking.BuildRanking`, a method with a
    loop invariant);
  - the two stable descending sorts truncated to 10 (`Views.TopView`);
  - the loops filling `shown_symbols` (`Remainder.CollectShown`);
  - the remainder comprehension (`Remainder.Remaining`).

  `Dashboard.BuildBoard` chains them as `main_app` does. It stops early
  when the symbol list or the fetched data is empty.

Python's truthiness test on a reference field (app.py:393, app.py:399) is
modelled as "present and greater than 0": a field that is 0 behaves like a
missing one. `sorted(..., reverse=True)` is stable. The model therefore
sorts by insertion, and an entry is placed before every entry whose key is
not larger. Stability is stated key value by key value: the entries with a
given key keep their input order.

As written, the downsampler does not cap a series at `target_points + 1`
rows. Because `step` rounds down, a series of `n` rows with
`target_points < n < 2 * target_points` gets step 1 and is kept whole. The
proved bound is fewer than `2 * target_points` rows (2 rows when the target
is 1). `DownsampleExamples.MoreThanTargetPlusOne` exhibits 5 rows kept for
target 3. The model follows the code.

## Model

| member | source | states |
|---|---|---|
| Sampling.StridePositions | app.py:137 | the positions `df.iloc[start::step]` takes lie in `[start, n)` |
| Sampling.StrideValues | app.py:137 | the i-th stride position is `start + i * step` |
| Sampling.StrideLength | app.py:137 | the stride stops at the first multiple of `step` not below `n`; it is empty exactly when `start >= n` |
| Sampling.StrideIncreasing | app.py:137 | stride positions are strictly increasing |
| Sampling.ReducedPositions | app.py:137-141 | the kept positions are in range |
| Sampling.Pick | app.py:137-141 | positional selection: one row per position, the row at that position |
| Sampling.Step | app.py:135 | the stride of a series longer than the target is at least 1 |
| Sampling.StepBounds | app.py:135 | `step * target <= n <= step * target + target - 1` |
| Sampling.ReduceAppendsUnlessSampled | app.py:137-141 | the reduction is the stride sample, with the last row appended exactly when its position is not among the sampled ones |
| Sampling.ReduceSelects | app.py:137-141 | the reduction is an order-preserving selection of the input at strictly increasing positions |
| Sampling.ReduceEnds | app.py:137-143 | the reduction keeps the first row, ends with the last row and is no longer than the input |
| Sampling.ReduceStride | app.py:135-141 | every row before the last is `s[i * step]`, and the stride reaches the last row |
| Sampling.ReduceCount | app.py:137-141 | at most `ceil(n / step) + 1` rows are kept, `ceil` being the least `c` with `c * step >= n` |
| Sampling.ReduceByOne | app.py:137 | a step of 1 keeps every row |
| Sampling.ReduceLength | app.py:135-141 | for a step of at least 2 with `n <= step * target + target - 1` (which `step = n // target` meets), fewer than `2 * target` rows are kept (at most 2 for target 1) |
| Sampling.KeptCount | app.py:133-141 | the number of kept positions of a series longer than the target is below `2 * target` (at most 2 for target 1) |
| Sampling.DownsampleSelects | app.py:131-143 | the result is the input at `KeptPositions`: every position when the series is short, the reduced positions otherwise, in increasing order |
| Sampling.DownsampleEnds | app.py:131-143 | the first and last rows are kept, the last one last; the result never lengthens the series |
| Sampling.DownsampleLength | app.py:131-143 | the result has fewer than `2 * target` rows (at most 2 for target 1) |
| Sampling.DownsampleToOne | app.py:131-143 | with target 1 a series of two or more rows becomes its first and last row |
| Sampling.DownsampleIdempotent | app.py:131-143 | downsampling a downsampled series with the same target changes nothing |
| Sampling.WithinBoundKept | app.py:133-141 | a series within the proved length bound is returned unchanged |
| Sampling.ShortSeriesKept | app.py:133-141 | a series shorter than twice the target is reduced with step 1 and kept whole |
| Sampling.PairKept | app.py:133-141 | two rows with target 1 are kept |
| DownsampleExamples.TenRowsTargetThree | app.py:131-143 | 10 rows, target 3: positions 0, 3, 6, 9 |
| DownsampleExamples.ElevenRowsTargetThree | app.py:131-143 | 11 rows, target 3: positions 0, 3, 6, 9 and the appended 10 |
| DownsampleExamples.MoreThanTargetPlusOne | app.py:131-143 | 5 rows with target 3 are all kept: no `target + 1` bound |
| Metrics.MinOi | app.py:379 | the result is at most every row's open interest and equals one of them |
| Metrics.Ladder | app.py:389-407 | the intensity is non-negative for non-negative growth and 0 for zero growth; the reported market cap is positive exactly in the market-cap tier |
| Metrics.Compute | app.py:373-407 | `min_oi` is the smallest open interest of the series (a lower bound that some row reaches); `current_oi` is the last row's; growth in tokens is `current_oi - min_oi >= 0`; growth in dollars is that times the last price, non-negative for a non-negative price; zero growth gives zero intensity |
| MetricsLemmas.IntensityLadder | app.py:389-407 | the first usable rule decides: market cap, then circulating supply, then `(growth / min_oi) * 0.1` when `min_oi > 0`, else 0; only the first reports a market cap |
| MetricsLemmas.NonPositiveIsAbsent | app.py:393-403 | a field that is not positive counts as missing, and a record with neither field counts as no record |
| MetricsLemmas.CapAndSupplyAgree | app.py:393-403 | when the market cap is the supply valued at the current price, the first two tiers give the same intensity |
| MetricsLemmas.WorkedExample | app.py:375-407 | prices 10, 12, 11 with open interest 100, 150, 140 and market cap 1000 give growth 40 tokens and 440 dollars, and intensity 0.44 |
| MetricsLemmas.ZeroMinimumWithoutReference | app.py:405-407 | without a record and with a zero minimum the intensity is 0 |
| Ranking.EntryOf | app.py:411-421 | the entry carries the series' symbol |
| Ranking.BuildRanking | app.py:365-421 | the loop produces exactly the ranking data `Ranked` |
| Ranking.RankedIsEligibleEntries | app.py:367-421 | one entry per series with at least two rows, in iteration order, each computed from that series; no entry for shorter series |
| Ranking.RankedAtEligible | app.py:367-421 | the i-th entry is computed from the i-th eligible series |
| Ranking.EligiblePositionsIncreasing | app.py:367 | eligible series are listed in iteration order |
| Ranking.EligiblePositionsComplete | app.py:367-369 | every series with at least two rows is ranked |
| Ranking.RankedEntryHasSeries | app.py:367-421 | every entry stands for a fetched series with at least two rows |
| Views.SortDesc | app.py:443-445 | the sort is non-increasing by its key and a permutation of its input |
| Views.SortedPairwise | app.py:443-445 | in a sorted sequence every key is at least every later key |
| Views.InsertDescAdds | app.py:443-445 | one insertion step adds exactly the inserted entry |
| Views.InsertDescSorted | app.py:443-445 | one insertion step keeps the sequence sorted |
| Views.InsertKeepsTies | app.py:443-445 | the inserted entry goes before every entry of equal key, and the order among equal keys is kept |
| Views.SortIsStable | app.py:443-445 | for each key value, the entries with that key keep their input order |
| Views.WithKeyOfPrefix | app.py:443-445 | truncation keeps a prefix of each key's entries |
| Views.CutOff | app.py:443-445 | cutting a sorted permutation keeps a sorted sub-multiset, and nothing cut off ranks above anything kept |
| Views.TopView | app.py:441-445 | at most 10 entries (all of them when fewer); sorted; drawn from the ranking data; no left-out entry has a larger key than a kept one |
| Views.TopViewDrawnFrom | app.py:443-445 | every entry of a view is an entry of the ranking data |
| Views.TopViewTies | app.py:443-445 | ties at the cut go to the entries earliest in the ranking data |
| Remainder.Symbols | app.py:567-571 | the set holds exactly the view's symbols |
| Remainder.SymbolsOfPrefix | app.py:569-571 | one more entry adds its symbol |
| Remainder.CollectShown | app.py:567-571 | the two loops collect exactly the symbols of both views |
| Remainder.Remaining | app.py:577 | a symbol is in the remainder exactly when it is a target and not shown; never longer than the targets |
| Remainder.RemainingSnoc | app.py:577 | one more target is appended to the remainder exactly when it is not shown |
| Remainder.RemainingIsUnshownTargets | app.py:567-577 | the remainder is the targets at exactly the positions holding unshown symbols, in their original order |
| Remainder.RemainingCount | app.py:567-577 | for distinct targets, the remainder is shorter by the number of distinct shown targets; a symbol in both views is removed once |
| Dashboard.Targets | app.py:351 | `sorted_symbols[:100]`: a prefix of the list, holding every symbol when there are fewer than 100 and exactly 100 otherwise |
| Dashboard.ViewEntriesAreRanked | app.py:441-445 | every view entry stands for a fetched series with at least two rows |
| Dashboard.ShownCoversViews | app.py:567-571 | every view entry's symbol is in the shown set |
| Dashboard.ViewsAccounted | app.py:441-577 | no symbol of either view reappears in the remainder, and each stands for an eligible fetched series |
| Dashboard.BuildBoard | app.py:349-577 | nothing when the symbol list or the fetched data is empty; otherwise the two views of the ranking data and the remainder of the first 100 symbols, with no view symbol in the remainder |

## Left out

- Database access (`get_db_uri`, `fetch_circulating_supply`, `get_sorted_symbols_by_oi_usd`, `fetch_bulk_data_one_shot`, app.py:24-96) is not modelled. The sorted symbol list, the fetched series (as a sequence in iteration order) and the reference table (as a map) are parameters of `Dashboard.BuildBoard`. The server-side row selection in the SQL text is not modelled either.
- The caching decorators are not modelled: they are library behaviour with no logic of their own.
- The first `downsample_data` (app.py:103-107) is not modelled: the second definition shadows it.
- `format_number`, `axis_format_logic`, chart construction, `render_chart_component` and all page layout are not modelled: they are display code.
- Floating point is not modelled. Prices and open interest are `real`, so NaN, infinities and rounding are absent. A reference field that pandas would give as NaN is modelled as `None`.
- Sampling.Downsample: requires `targetPoints > 0`. The source divides by it, and its only caller passes 400.
- Sampling.ReduceAppendsUnlessSampled: the source tests index labels (`df.index[-1] not in df_sampled.index`). The model tests positions, which is the same test when the labels are unique, as the default index of a query result is.
- MetricsLemmas.CapAndSupplyAgree: stated on `Ladder` (the tier selection), not on the whole `Compute`.
- Dashboard.BuildBoard: the map iteration order of the fetched data is taken as the given sequence order.
