# exchange_features core, in Dafny

This project models the market-microstructure feature code in
`cupy_functions.py`:

- the order-book imbalance calculator: `compute_imbalances`,
  `compute_improved_imbalance` and `cupy_imb`;
- the three engines that slide a trailing time window over a series of
  timestamped samples: `cupy_calculate_past_returns`,
  `data_autocorrelation_cupy` and `data_realized_kernel_cupy`;
- their helpers: `shift_cupy`, `cp.cumsum` and `parzen_kernel_cupy`.

The files are:

- `numbers.dfy` (module `Numbers`): `Float`, which is either a finite real
  or NaN/infinity. Floating-point division by zero does not raise; it
  yields inf or nan, so `Div` returns `NaNOrInf` there. The module also
  holds small real-arithmetic lemmas.
- `series.dfy` (module `Series`): cumulative sums; `shift_cupy`, both as
  the reference function `Shifted` and as the array method `Shift`; prefix
  sums of lagged products; the lemma that a difference of prefix-sum
  entries is a windowed sum.
- `window.dfy` (module `Window`): the `start_index` tracker shared by all
  three engines. `Advance` is the two-pointer loop. It is proved to stop
  where a full re-scan from index 0 (`WindowStart`) stops.
- `parzen.dfy` (module `Parzen`): the Parzen kernel, its range,
  continuity and monotonicity, and the weight table
  `kernel_values`.
- `past_returns.dfy`, `autocorrelation.dfy`, `realized_kernel.dfy`: the
  three engines. Each is proved, sample by sample, to follow the window
  that `WindowStart` gives. The past return of a sample is the relative
  change `(v / base - 1) * 10**5` of its value `v` against the first value
  `base` of its window (`PastReturnAt`). An
  autocorrelation cell is zero, and it is cold exactly when `ColdCell`
  holds. The realized kernel is proved equal to `KernelEstimate`, a
  reference written with direct sums of lagged products, not with the
  prefix-sum tables the code reads.
- `imbalance.dfy` (module `Imbalance`): eligible levels, the median, the
  walk of each side of the book, the two imbalance formulas, the
  de-interleaving of a snapshot row into 4 strided arrays, and the
  per-row driver. The Python `IndexError`s become `Err` values of a
  `Result`.

Points where the code behaves differently from what its names or comments
suggest:

- The median is taken positionally over the eligible amounts in level
  order. They are not sorted first, unlike the commented-out `cp.median`
  calls at `cupy_functions.py:7` and `:16`. So this is the true median
  only when the list is sorted (`MedianOfSorted`).
- Bids are eligible when their price is strictly above `0.95` times the
  best bid. The commented-out line at `cupy_functions.py:15` uses
  `< 1.05` instead.
- `data_autocorrelation_cupy` never combines its two cumulative-sum reads
  and has no `return`. Its model exposes what the function does compute:
  the final contents of its local `autocorrelations` buffer, where every
  cell is 0. A ghost result records which cells took the cold-start
  branch. It is proof state only; the code does not store it.

`H = 0` is a valid bandwidth. The kernel table is then empty and the
estimate is the windowed sum of squares. The list of output tuples that
`cupy_imb` fills by index is a sequence updated one position at a time.

## Model

| member | source | states |
|---|---|---|
| Numbers.Div | cupy_functions.py:89 | the quotient is finite exactly when the divisor is non-zero, and then it times the divisor gives back the dividend |
| Numbers.Min | cupy_functions.py:165 | the result is one of the two arguments and no greater than either |
| Numbers.Abs | cupy_functions.py:137 | the result is non-negative and is `x` or `-x` |
| Series.PrefixSum | cupy_functions.py:108 | `cp.cumsum`: same length, and entry `i` is the sum of the inputs `0..i` |
| Series.Accumulate | cupy_functions.py:108 | entry `i` of the running sum is the start value plus the sum of the first `i + 1` inputs, and the length is preserved |
| Series.PrefixDifference | cupy_functions.py:166 | the difference of cumulative-sum entries `b` and `a - 1` is the sum of the inputs `a..b` |
| Series.Shifted | cupy_functions.py:127-133 | the shifted series has the input's length; entry `k` is 0 below `n` and `xs[k - n]` from `n` on |
| Series.Shift | cupy_functions.py:127-133 | returns a fresh array whose contents are `Shifted` of the input; also the plain copy when `n == 0` |
| Series.LagProducts | cupy_functions.py:106 | `prices * shift_cupy(prices, lag)`, one product per sample, same length as the prices |
| Series.LagProductsAt | cupy_functions.py:152 | entry `k` of the lag products is `p[k] * p[k - lag]`, or 0 while `k < lag` |
| Series.SumOfLagProducts | cupy_functions.py:152 | summing the lag-product series over `[lo, hi)` gives the direct sum of `p[k] * p[k - lag]` |
| Series.LagWindowSum | cupy_functions.py:168 | a difference of two entries of a lag's prefix-sum table is the direct windowed sum of lagged products |
| Series.LagPrefixSums | cupy_functions.py:152 | one table equals the cumulative sum of `prices * shift(prices, lag)` |
| Window.Timestamps | cupy_functions.py:149 | the timestamp column `[:, 0]`, pointwise |
| Window.Values | cupy_functions.py:150 | the value column `[:, 1]`, pointwise |
| Window.Span | cupy_functions.py:83 | `delta * 10**6`, the window length in timestamp units (no contract; the engines take a non-negative `delta`) |
| Window.FirstWithin | cupy_functions.py:159-160 | the scan result lies in `[from, i]`, its sample is within the span of sample `i`, and every sample it skipped is not |
| Window.WindowStart | cupy_functions.py:115-116 | the re-scan from 0: the start is at most `i`, its sample is inside the window, and every earlier sample is outside |
| Window.WindowStartUnique | cupy_functions.py:86-87 | an index is the window start if and only if its sample is inside the window and every earlier one is outside |
| Window.WindowStartBounds | cupy_functions.py:115-116 | the window start is at most `i`, inside the window, and the sample before it is outside |
| Window.WindowStartMonotone | cupy_functions.py:159-160 | for non-decreasing timestamps the window start never moves backwards |
| Window.StaysOut | cupy_functions.py:86-87 | for non-decreasing timestamps a sample out of the window of `i - 1` is out of the window of `i` |
| Window.Advance | cupy_functions.py:86-87 | starting from the previous sample's pointer, the pointer only moves forward and stops exactly at the re-scan window start |
| Parzen.Kernel | cupy_functions.py:136-143 | `parzen_kernel_cupy` on the absolute value `a` of `x`: 0 from 1 on, `2(1-a)^3` on `[0.5, 1)`, `1 - 6a^2(1-a)` below 0.5 (no contract; the lemmas below are about it) |
| Parzen.KernelSymmetric | cupy_functions.py:137 | the kernel is even |
| Parzen.KernelAtZero | cupy_functions.py:143 | the kernel is 1 at 0 |
| Parzen.KernelVanishes | cupy_functions.py:138-139 | the kernel is 0 from distance 1 on |
| Parzen.KernelContinuous | cupy_functions.py:140-143 | both polynomial branches meet at 0.5 with value 0.25, and the outer one reaches 0 at 1 |
| Parzen.InnerRange | cupy_functions.py:143 | the inner branch lies in `[0.25, 1]` on `[0, 0.5]` |
| Parzen.OuterRange | cupy_functions.py:141 | the outer branch lies in `[0, 0.25]` on `[0.5, 1]` |
| Parzen.InnerDecreasing | cupy_functions.py:143 | the inner branch does not increase on `[0, 0.5]` |
| Parzen.OuterDecreasing | cupy_functions.py:141 | the outer branch does not increase on `[0.5, 1]` |
| Parzen.KernelRange | cupy_functions.py:136-143 | every kernel value lies in `[0, 1]` |
| Parzen.KernelNonIncreasing | cupy_functions.py:136-143 | a point farther from 0 never gets a larger kernel value |
| Parzen.KernelWeights | cupy_functions.py:153 | the weight table has one entry per lag `1..H` |
| Parzen.KernelWeightsRange | cupy_functions.py:153 | every weight lies in `[0, 1]`, the weights do not increase with the lag, and the weight of lag `H` is 0 |
| PastReturns.Return | cupy_functions.py:89 | `(v / base - 1) * 10**5`, NaN/inf for a zero base (no contract; `ReturnSign` and `ReturnOfItself` are about it) |
| PastReturns.PastReturnAt | cupy_functions.py:89 | the reference output of sample `i`: its return over the first sample of its re-scan window (no contract; the engine is proved equal to it) |
| PastReturns.ReturnSign | cupy_functions.py:89 | with a positive base the return is finite, zero exactly when the value equals the base, positive exactly when it is larger |
| PastReturns.ReturnOfItself | cupy_functions.py:89 | a value over itself gives return 0, or NaN when the value is 0 |
| PastReturns.CalculatePastReturns | cupy_functions.py:79-91 | one output per sample, each the return of the sample over the first sample of its window; a sample alone in its window with a non-zero value gets 0 |
| Autocorrelation.History | cupy_functions.py:119 | `n = i - start_index + 1 - lag` (no contract; used by `Cold`) |
| Autocorrelation.Cold | cupy_functions.py:120 | the cold-start test `n <= 1 or start_index == 0` (no contract; `DataAutocorrelation` is proved against it) |
| Autocorrelation.ColdCell | cupy_functions.py:120 | the cold-start test for cell `(j, i)` at the re-scan window start of sample `i` (no contract) |
| Autocorrelation.WarmReadsInRange | cupy_functions.py:119-124 | in a warm cell the read `cum_prices_2[start + lag - 1]` is in range, and at most `i - 2` |
| Autocorrelation.SampleColumn | cupy_functions.py:118-124 | a cold cell of column `i` is set to 0, a warm one is left alone, no other column changes, and the ghost `taken` says which lags were cold |
| Autocorrelation.DataAutocorrelation | cupy_functions.py:102-124 | the buffer has one row per lag and one column per sample, and every cell ends 0; the ghost record says a cell took the cold branch exactly when `n <= 1` or its window starts at sample 0 |
| RealizedKernel.WeightedLags | cupy_functions.py:167-168 | the reference sum over lags `1..m` of `2 * w[j - 1]` times the direct sum of `p[k] * p[k - j]` over `start + j .. i` (no contract) |
| RealizedKernel.KernelEstimate | cupy_functions.py:162-169 | the reference estimate: 0 on a cold start, otherwise the direct windowed sum of squares plus `WeightedLags` up to `min(i + 1 - start, H)` (no contract; the engine is proved equal to it) |
| RealizedKernel.KernelReadsInRange | cupy_functions.py:165-168 | in a warm sample every prefix-table index read, `start - 1` and `start + j - 1` for `1 <= j <= min(i + 1 - start, H)`, lies in `[0, i]` |
| RealizedKernel.LagTables | cupy_functions.py:152 | table `l` of `0..H` is the prefix sum of the lag-`l` products |
| RealizedKernel.WindowEstimate | cupy_functions.py:162-169 | the table-based inner loop computes the direct-sum estimate: 0 on a cold start, otherwise the windowed sum of squares plus the weighted lag sums up to `min(i + 1 - start, H)` |
| RealizedKernel.EstimateAll | cupy_functions.py:158-170 | each output entry is the direct-sum estimate over its sample's window |
| RealizedKernel.DataRealizedKernel | cupy_functions.py:146-173 | one output per sample, equal to the direct-sum kernel estimate over the re-scan window start of that sample, and 0 wherever that window starts at sample 0 |
| RealizedKernel.BandwidthOne | cupy_functions.py:165-168 | with `H = 1` the single lag weight is 0 and the estimate is the windowed sum of squares |
| Imbalance.Eligible | cupy_functions.py:8 | the band test: asks strictly below `1.05 * best`, bids strictly above `0.95 * best` (line 17) (no contract) |
| Imbalance.BestLevelEligible | cupy_functions.py:8 | with a positive best price the best level is inside the 5% band on either side |
| Imbalance.EligibleFrom | cupy_functions.py:8 | the eligible list is empty exactly when no level is in the band; it starts with an eligible first level's amount; every element is the amount of an eligible level |
| Imbalance.EligibleIndices | cupy_functions.py:8 | the levels at or after `from` that pass the band, in increasing order: each listed index is eligible, and every eligible index is listed |
| Imbalance.EligibleFromAtIndices | cupy_functions.py:8 | the eligible list has one entry per eligible level, in level order, and entry `t` is the amount of the `t`-th eligible level |
| Imbalance.EligibleAmounts | cupy_functions.py:17 | the eligible list of one side, the band taken around `prices[0]`; empty for an empty side (no contract; `EligibleFrom` carries the properties) |
| Imbalance.EligibleStartsWithBest | cupy_functions.py:17 | with a positive best price the eligible list is non-empty and starts with the best level's amount |
| Imbalance.Median | cupy_functions.py:9-13 | the median lies between the two middle elements of the list |
| Imbalance.MedianOfSorted | cupy_functions.py:9-13 | on a sorted list at least half the elements lie on each side of the median |
| Imbalance.TradeSize | cupy_functions.py:24 | `(ask_median + bid_median) / 2` (no contract) |
| Imbalance.BookCost | cupy_functions.py:28-37 | the reference cost of a walk, by recursion over the levels (no contract; `WalkBook` is proved equal to it, `BookCostAtLeast` and `BookCostAtMost` bound it) |
| Imbalance.WalkBook | cupy_functions.py:26-37 | the walk loop spends exactly `BookCost`: each level is taken whole while smaller than the rest, then the remainder, then the walk stops |
| Imbalance.BestLevelCovers | cupy_functions.py:35-37 | a best level at least as deep as the size settles the walk at best price times size |
| Imbalance.BookCostAtLeast | cupy_functions.py:28-37 | with every level priced at least `c` and enough depth, the walk costs at least `c` per unit |
| Imbalance.BookCostAtMost | cupy_functions.py:42-51 | with every level priced at most `c` and enough depth, the walk costs at most `c` per unit |
| Imbalance.BookCostPositive | cupy_functions.py:42-51 | with positive prices and enough depth, a positive size costs a positive amount |
| Imbalance.AskImbalance | cupy_functions.py:38 | `((money / median) / best - 1) * 10**5`, NaN/inf on a zero divisor (no contract; `AskImbalanceNonNegative` is about it) |
| Imbalance.BidImbalance | cupy_functions.py:53 | `(best / (money / median) - 1) * 10**5`, NaN/inf on a zero divisor (no contract; `BidImbalanceNonNegative` is about it) |
| Imbalance.BestLevelCoversGivesZero | cupy_functions.py:38 | when the best level covers the size, both formulas give exactly 0 |
| Imbalance.AskImbalanceNonNegative | cupy_functions.py:38 | on an ask book priced at or above the best ask with enough depth, the ask imbalance is finite and non-negative |
| Imbalance.BidImbalanceNonNegative | cupy_functions.py:53 | on a positive bid book priced at or below the best bid with enough depth, the bid imbalance is finite and non-negative |
| Imbalance.Imbalances | cupy_functions.py:5-55 | the reference calculation: the errors in source order, then both walks and both formulas (no contract; the lemmas below are about it) |
| Imbalance.ComputeImbalances | cupy_functions.py:5-55 | the method, with both walks as loops, returns `Imbalances`: the errors in the order the source raises them, otherwise both imbalances |
| Imbalance.PositiveBestPricesHaveMedians | cupy_functions.py:9-22 | with positive best prices on both sides the only possible failure is a missing amount slot |
| Imbalance.BestLevelSettlesSide | cupy_functions.py:24-53 | on a successful snapshot, a side whose best level covers the non-zero trade size has imbalance exactly 0 |
| Imbalance.SingleLevelExample | cupy_functions.py:5-55 | one level per side (100 and 99, amount 5 each) gives both imbalances 0 |
| Imbalance.Stride | cupy_functions.py:60-63 | `data[offset::4]` has `ceil((len - offset) / 4)` entries, and entry `k` is `data[offset + 4k]` |
| Imbalance.InterleaveStrides | cupy_functions.py:60-63 | for a whole number of levels the four strides have equal length and interleaving them gives the row back |
| Imbalance.StridesOfInterleave | cupy_functions.py:60-63 | de-interleaving four interleaved level arrays gives each array back |
| Imbalance.WholeLevelsHaveAmounts | cupy_functions.py:59-65 | a row of a timestamp plus whole levels never fails on a missing amount |
| Imbalance.RowImbalanceOf | cupy_functions.py:58-67 | only an empty row fails before the book is read (`EmptySnapshot`), and a result carries the row's own timestamp `row[0]` |
| Imbalance.CupyImb | cupy_functions.py:70-76 | succeeds exactly when every row does, then has one result per row in order, each `RowImbalanceOf` its row; otherwise returns the first failing row's error |

## Left out

- Progress reporting (`tqdm` in `cupy_imb`, `progress_hook.update(1)` in the realized kernel) is I/O and is not modelled.
- `@cp.fuse()`, GPU arrays, `cp.asnumpy` copies and buffer allocation are not modelled. Arrays are real-valued sequences or Dafny arrays.
- Floating-point rounding is not modelled. Values are exact reals; only the inf/nan result of a division by zero is kept.
- WalkBook: the stop test `cp.isclose(size, 0)` is modelled as `size == 0`, because the tolerance is a floating-point notion.
- The first definition of `shift_cupy` (lines 95-99) is replaced by the second before any call, so only the second is modelled.
- DataAutocorrelation: builds no `lag_prices_prod` tables and no normalised autocorrelation, because the source computes the tables without using them and never finishes the formula.
- CalculatePastReturns, DataAutocorrelation, DataRealizedKernel: the window length is an integer `delta >= 0`. A negative or fractional window is not modelled; a negative one would run the pointer past the end.
- CalculatePastReturns, DataAutocorrelation, DataRealizedKernel: require non-decreasing timestamps, the order the engines are designed for. `Advance` also relies on it to carry the pointer over between samples.
- ComputeImbalances, Imbalances, WalkBook: require each amount array to be no longer than its price array. This is always true for the strided arrays of a row. With a longer amount array the Python walk raises `IndexError` only when the size is not used up within the price levels; such inputs are not modelled.
- Lags and `H` are natural numbers, so negative lags are not modelled.
