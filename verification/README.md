# Price series accessor, modelled in Dafny

A model of fintopy's `prices` accessor (`fintopy/prices.py`). The accessor wraps one
time series of asset prices. At construction it validates the series and stores a
copy sorted by date. It then offers pure analytics over the stored copy:

- rebasing;
- percentage and logarithmic returns over a lag;
- absolute and annualized return;
- drawdown from the running maximum, and maximum drawdown.

Modules, one per concern:

- `Wrappers` (`wrappers.dfy`): `Option`, `Result` and `Outcome`.
- `Series` (`series.dfy`): the series, the checks made at construction, the sort by
  date, and the constructor `New`.
- `Returns` (`returns.dfy`): `rebase`, `pct_returns`, `log_returns`, `abs_return`
  and `annualized_return`.
- `Drawdowns` (`drawdown.dfy`): `cummax`, `drawdown` and `max_drawdown`.
- `Examples` (`examples.dfy`): the documented behaviour on small series.

Modelling choices:

- A series is a `seq<Point<real>>`, and a `Point` is a date and a price. Dates are
  whole day numbers (`int`). Prices are exact reals.
- Series of values that are not prices (drawdowns) have the type `Values`, the
  same shape as `Prices`.
- A missing entry (pandas' NaN) is `None` in a `Gapped` series of `Option<real>`
  values.
- The operations take the stored series and require `Stored`: dates strictly
  ascending and every price positive. `New` establishes exactly that invariant.
- Reading the first or last entry of an empty series raises in pandas. In the model
  it is `Failure(EmptySeries)`.
- The operations keep fintopy's default arguments: `base := 100` for `Rebase`,
  `period := 1` and `dropna := false` for `PctReturns` and `LogReturns`,
  `base := 365` for `AnnualizedReturn`, and `negative := false` for `Drawdown` and
  `MaxDrawdown`. `LogReturns` takes the logarithm `ln` as its second, required
  parameter.
- Products of reals go through the named functions `Scale`, `Grow` and `Rebased`.
  Contracts state growth as `Grow(before, change) == now`, meaning
  `before * (1 + change) == now`.

## Model

| member | source | states |
|---|---|---|
| `Series.NoneSeen` | fintopy/prices.py:33-34 | the uniqueness scan is true exactly when no date repeats and none is among the dates already seen |
| `Series.Validate` | fintopy/prices.py:33-36 | validation passes exactly when dates are unique and all prices are positive; it reports duplicates exactly when a date repeats, and non-positive prices exactly when dates are unique but some price is zero or negative |
| `Series.Insert` | fintopy/prices.py:26 | inserting one entry adds exactly that entry to the multiset of entries |
| `Series.InsertKeepsOrder` | fintopy/prices.py:26 | inserting into a date-ordered series keeps it ordered, and strictly so when the date is new |
| `Series.SortByDate` | fintopy/prices.py:26 | `sort_index()` yields a date-ordered permutation of the input, strictly ordered when dates are unique |
| `Series.New` | fintopy/prices.py:24-26 | construction succeeds iff dates are unique and prices are positive, reporting duplicates before non-positive prices, as fintopy does; on success it stores a strictly date-ascending, positive permutation of the input |
| `Series.NewOfStored` | fintopy/prices.py:24-26 | constructing from a series that is already sorted and positive stores it unchanged |
| `Series.NewIdempotent` | fintopy/prices.py:24-26 | constructing from the series an accessor stores gives back the same stored series |
| `Series.PositivePermutation` | fintopy/prices.py:35-36 | the positivity check does not depend on order |
| `Series.UniqueDatesPermutation` | fintopy/prices.py:33-34 | the uniqueness check does not depend on order |
| `Series.StoredArrangementUnique` | fintopy/prices.py:26 | two strictly date-ascending series with the same entries are equal, so the stored series does not depend on the sorting algorithm |
| `Series.NewIgnoresInputOrder` | fintopy/prices.py:24-26 | construction gives the same result, or the same error, for any reordering of the input |
| `Returns.Rebase` | fintopy/prices.py:61 | rebasing fails only on an empty series; it keeps length and dates, takes the first price to `base`, makes every entry i satisfy `r[i] * p[0] == p[i] * base` (so `r[i] == p[i] / p[0] * base`, for any base, zero and negative included), and keeps prices positive for a positive base |
| `Returns.RebaseKeepsReturns` | fintopy/prices.py:61 | a series rebased on a positive base is a valid stored series with the same percentage changes at every lag and the same absolute return |
| `Returns.RebaseTwice` | fintopy/prices.py:61 | rebasing a rebased series on `b2` equals rebasing the original on `b2` |
| `Returns.RelChange` | fintopy/prices.py:91 | the change between two positive prices exceeds -1; it is positive iff the price rose and zero iff it is unchanged |
| `Returns.RelChangeGrows` | fintopy/prices.py:91 | growing the earlier price by the change gives the later price |
| `Returns.PctChange` | fintopy/prices.py:91 | `pct_change(period)` keeps length and dates; entry i is present iff entry `i - period` exists; present entries exceed -1 |
| `Returns.PctChangeAt` | fintopy/prices.py:91 | where entry `i - period` exists, entry i is present and grows price `i - period` into price i |
| `Returns.DropNa` | fintopy/prices.py:89 | `dropna()` never lengthens a series and leaves no missing entry |
| `Returns.DropNaMembers` | fintopy/prices.py:89 | `dropna()` keeps exactly the present entries |
| `Returns.DropNaRun` | fintopy/prices.py:89 | dropping the missing entries of a series present exactly on a run of indices leaves that run |
| `Returns.PctReturnsDropped` | fintopy/prices.py:88-91 | with `dropna`, the returns are the run of `pct_change` entries that have a lagged partner; its length is `n - abs(period)`, or 0 when the lag exceeds `n` |
| `Returns.PctReturnsDroppedEntries` | fintopy/prices.py:88-89 | for `0 <= period <= n`, `pct_returns(period, dropna=True)` has length `n - period`; entry k has the date of price `k + period` and grows price k into price `k + period` |
| `Returns.LogRatio` | fintopy/prices.py:74-76 | for two positive prices, the log difference is the log of their ratio whenever `ln` obeys the product law, and added to the log of the earlier price it gives the log of the later one |
| `Returns.LogChange` | fintopy/prices.py:76 | `apply(log).diff(period)` keeps length and dates; entry i is present iff entry `i - period` exists |
| `Returns.LogChangeAt` | fintopy/prices.py:76 | where entry `i - period` exists, entry i is present, and adding it to the log of price `i - period` gives the log of price i |
| `Returns.LogChangeRecoversLogPrice` | fintopy/prices.py:73-76 | the all-entries form of `LogChangeAt`: every present log return, added to the log of the lagged price, gives the log of the current price |
| `Returns.LogReturnMatchesAt` | fintopy/prices.py:73-91 | where both are present, the log return is the log of one plus the percentage return |
| `Returns.LogReturnsMatchPctReturns` | fintopy/prices.py:73-91 | log returns are missing exactly where percentage returns are; each present one is `ln(1 + pct)`; with `dropna` both keep the same run of dates |
| `Returns.AbsReturn` | fintopy/prices.py:99 | `abs_return()` fails only on an empty series; it exceeds -1, grows the first price into the last, and is positive or zero exactly when the last price is above or equal to the first |
| `Returns.CompoundFromReachesLast` | fintopy/prices.py:91-99 | applying the one-step returns after position k to price k reaches the last price |
| `Returns.AbsReturnCompounds` | fintopy/prices.py:91-99 | one plus the absolute return is the product of one plus each one-step `pct_returns` entry |
| `Returns.AnnualizedReturn` | fintopy/prices.py:110-111 | fails only on an empty series and is missing (NaN) exactly for a single entry; otherwise the elapsed days are positive, and the result times those days equals the absolute return times `base`; for a positive base it has the sign of the absolute return, and it equals the absolute return when the span is `base` days |
| `Drawdowns.Peak` | fintopy/prices.py:138 | the running maximum at i bounds every price up to i and is one of them |
| `Drawdowns.PeakMonotone` | fintopy/prices.py:138 | the running maximum never falls |
| `Drawdowns.RunningMax` | fintopy/prices.py:138 | `cummax()` keeps length and dates, bounds every earlier price, and is non-decreasing |
| `Drawdowns.RunningMaxAttained` | fintopy/prices.py:138 | every entry of `cummax()` is a price at or before it |
| `Drawdowns.Decline` | fintopy/prices.py:138-139 | the fall from a peak to a price at or below it lies in [0, 1) and is 0 iff the price is the peak |
| `Drawdowns.DeclineRecoversPrice` | fintopy/prices.py:138-139 | shrinking the peak by its decline gives back the price |
| `Drawdowns.Drawdown` | fintopy/prices.py:134-139 | `drawdown()` keeps length and dates, with values in [0, 1); with `negative` they lie in (-1, 0] |
| `Drawdowns.DrawdownZeroAtNewHigh` | fintopy/prices.py:134-139 | the drawdown at i is zero iff price i is at least every earlier price |
| `Drawdowns.DrawdownRecoversPrice` | fintopy/prices.py:138-139 | shrinking the running maximum by the drawdown gives back the price |
| `Drawdowns.DrawdownNegation` | fintopy/prices.py:134-139 | `drawdown(negative=True)` is `drawdown()` negated entry by entry, with the same dates |
| `Drawdowns.DeclineGrowsWithPeak` | fintopy/prices.py:138-139 | a higher peak means a deeper decline to the same price |
| `Drawdowns.DrawdownIsDeepestDecline` | fintopy/prices.py:138-139 | the drawdown at i is the deepest decline to price i from any price at or before it, and some such price attains it |
| `Drawdowns.MaxValue` | fintopy/prices.py:153 | `max()` is missing only for an empty series; otherwise it bounds every value and is one of them |
| `Drawdowns.MinValue` | fintopy/prices.py:151 | `min()` is missing only for an empty series; otherwise it is a lower bound and is one of the values |
| `Drawdowns.MinOfNegated` | fintopy/prices.py:150-153 | the minimum of a negated series is the negated maximum, and one is missing iff the other is |
| `Drawdowns.MaxDrawdown` | fintopy/prices.py:150-153 | `max_drawdown()` is missing only for an empty series; it is the largest drawdown, in [0, 1); with `negative` it is the smallest negative drawdown, in (-1, 0] |
| `Drawdowns.MaxDrawdownNegation` | fintopy/prices.py:150-153 | `max_drawdown(negative=True)` is `-max_drawdown()`, and one is missing iff the other is |
| `Drawdowns.MaxDrawdownIsDeepestDecline` | fintopy/prices.py:152-153 | `max_drawdown()` bounds the decline from any price to any later price, and some such pair attains it |
| `Examples.NewSortsExample` | fintopy/prices.py:24-26 | dates 3, 1, 2 are stored as 1, 2, 3, each with its price |
| `Examples.NewRejectsExample` | fintopy/prices.py:33-36 | a repeated date and a zero price are each rejected with their own error |
| `Examples.RebaseExample` | fintopy/prices.py:52-61 | `rebase()` on [10, 20, 40] is [100, 200, 400] |
| `Examples.AbsReturnExample` | fintopy/prices.py:99 | `abs_return()` on [10, 20] is 1.0 |
| `Examples.PctReturnsExample` | fintopy/prices.py:78-89 | `pct_returns(dropna=True)` on [10, 20, 40] is [1.0, 1.0] |
| `Examples.LogReturnsExample` | fintopy/prices.py:63-76 | `log_returns()` on [e, e * e] is [missing, 1.0] |
| `Examples.AnnualizedReturnExample` | fintopy/prices.py:101-111 | `annualized_return()` with its default base of 365 on a 10% gain over 365 days is 0.1 |
| `Examples.RunningMaxExample` | fintopy/prices.py:138 | `cummax()` of [100, 80, 120] is [100, 100, 120] |
| `Examples.DrawdownExample` | fintopy/prices.py:125-139 | `drawdown()` on [100, 80, 120] is [0, 0.2, 0] |
| `Examples.MaxDrawdownExample` | fintopy/prices.py:141-153 | `max_drawdown()` on [100, 80, 120] is 0.2 |
| `Examples.NegativeMaxDrawdownExample` | fintopy/prices.py:151 | `max_drawdown(negative=True)` on [100, 80, 120] is -0.2 |

## Left out

- `set_frequency` (fintopy/prices.py:38-50) is left out. It is a call into pandas' resampling engine (`asfreq` over business-day calendars), and that engine is not part of this model.
- `cagr` (fintopy/prices.py:113-123) is left out. It raises a real to a real power, which has no exact counterpart over Dafny's reals.
- The date/time type check of the index (fintopy/prices.py:31-32) is left out. Dates are integers by construction, so a `TypeError` cannot arise.
- The registration of the class as a pandas accessor (fintopy/prices.py:8) is left out. The model calls `New` and the operations directly.
- Floating point is not modelled: prices are exact reals. Rounding, overflow, infinities and NaN inputs do not arise. A NaN result is `None`: missing returns, `max()`/`min()` of an empty series, and the annualized return of a single entry.
- The natural logarithm is a parameter `ln` of the log-return operations. Only the product law `LogLaw` is assumed of it, where a lemma needs it.
- Returns.PctReturns: has no contract of its own; `PctReturnsDropped`, `PctReturnsDroppedEntries` and the `PctChange` contract state what it computes.
- Returns.LogReturns: has no contract of its own; `LogReturnsMatchPctReturns` and the `LogChange` contract state what it computes.
- Series.SortByDate: is an insertion sort, not pandas' sort algorithm. `StoredArrangementUnique` shows every correct sort stores the same series.
- Returns.AnnualizedReturn: dates are whole days, so two distinct dates are at least one day apart. fintopy's use of `Timedelta.days` rounds sub-day spans down, which can make it divide by zero days; that is not modelled.
- Drawdowns.Drawdown: with `negative`, a zero drawdown is `-0.0` in floating point; over the reals it is `0.0`.
- Series.Validate: checks only the two value conditions (duplicate dates, non-positive prices). The check that the index is a date index is the one left out above.
