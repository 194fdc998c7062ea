# Dollar-cost averaging simulation — Dafny model

This project models the computational core of a small Flask application. The application simulates dollar-cost averaging (DCA): it invests a fixed amount every month in one ticker and reports how the portfolio evolves. The core has three parts, all inside the `index()` handler of `app.py`:

- **Monthly resample** (`app.py:28`). The daily price series is reduced to one row per calendar month. Each row holds the month's first observation and is labelled with the month's last day (`resample('ME').first()`). This is modelled by the pure function `Periodizer.Periodize` over a sequence of `(date, price)` points.
- **Accumulation loop** (`app.py:22-45`). Two running variables, `total_investment` and `shares`, start at 0. For every monthly row the loop adds `amount` to the investment and `amount / price` to the shares. It then appends a log record holding the rounded units bought, the rounded investment, the exact share count and the rounded portfolio value. This is modelled by the method `Dca.SimulateDca`, a `for` loop over the rows that appends to a `seq` log. The method is proved equal to the specification functions `Dca.Accumulate`, `Dca.ExpectedLog` and `Dca.SharesSum`.
- **Summary** (`app.py:50-51`, `app.py:72`). The final value is the last log entry's value, rounded again. The profit is that value minus the unrounded running investment, rounded. The investment is reported rounded. This is modelled by `Dca.Summarize`. `Dca.RunDca` chains the resample, the loop and the summary the way the handler does.

Arithmetic is exact, over `real`. The `round(x, 2)` calls at lines 40, 43, 50 and 51 receive `numpy.float64` values, because `row['Adj Close']` from `iterrows` is one and so is everything computed from it. `round` therefore goes to numpy's `around`: scale by 100, round half to even, scale back. `Rounding.Round2` does the same over exact reals. It rounds to the nearest cent and sends a tie to the even cent.

The modules are `Calendar` (dates, months, month-end labels), `Rounding`, `Periodizer` and `Dca`.

### Behaviour of the code that one might not expect

The model follows the code in each case below.

- Resampling an empty series raises no error. It gives an empty monthly frame, the loop runs zero times, and `pd.DataFrame([])` at line 47 has no columns. Line 50 then fails on the missing `'Portfolio Value'` column (a `KeyError`), before `.iloc[-1]` runs. In the model, `Periodize([])` is `[]`, and `Summarize` returns `Failure(EmptySeries)` for an empty log.
- Each monthly row is dated on the month's last day, which pandas' `'ME'` rule gives, not on the day of the observation whose price it carries. `Periodize` uses the month-end date, for example 31 January and 28 February 2023 in `Periodizer.TwoMonthScenario`.
- The profit at line 51 subtracts the unrounded `total_investment` from the rounded final value. It does not subtract the rounded investment reported at line 72. `Summarize` does the same.
- Neither the amount nor the prices are checked: a zero or negative amount is used as given. The only requirement is that every monthly price is non-zero, because it is divided by. Positivity is a hypothesis of the monotonicity lemma only.

## Model

| member | source | states |
|---|---|---|
| `Calendar.DaysInMonth` | app.py:28 | The length of each month under the Gregorian leap-year rule: 29 exactly for a leap February, 28 for any other February, 30 for April, June, September and November, 31 otherwise. |
| `Calendar.MonthEnd` | app.py:28 | The month-end label of a date is a valid date in the same month, and no earlier than the date itself. |
| `Calendar.MonthEndIsLastDay` | app.py:28 | No valid date of a month comes after that month's month-end label. |
| `Rounding.Cents` | app.py:40-43 | The cent count of `round(x, 2)` is within half a cent of `x`, and a tie goes to the even cent count. |
| `Rounding.Round2` | app.py:40-43 | `round(x, 2)` is a whole number of cents, at most 0.005 away from `x`. |
| `Rounding.Round2OfCents` | app.py:50 | Rounding a whole number of cents leaves it unchanged. |
| `Rounding.Round2Idempotent` | app.py:50 | Rounding the already rounded last portfolio value again changes nothing. |
| `Periodizer.Periodize` | app.py:28 | The monthly frame has at most as many rows as there are observations, it is empty exactly when the series is empty, and every row date is a valid calendar date. |
| `Periodizer.PeriodizeOfPrefix` | app.py:28 | A later observation never changes the rows of earlier months. The last observation adds exactly one row, its own, when it opens a new month, and no row otherwise. |
| `Periodizer.PeriodizeRowsStartMonths` | app.py:28 | Every monthly row is the row of an observation that opens its month. |
| `Periodizer.StartsMonthIsEarliest` | app.py:27-28 | In a series whose dates never go back (several points may share a day), an observation that opens its month has no earlier observation in the same month. |
| `Periodizer.FirstObservationWins` | app.py:28 | Every row carries the price of the earliest observation of some month and is labelled with that month's last day. |
| `Periodizer.LastRowMonth` | app.py:28 | The last row is labelled with the month end of the last observation's month. |
| `Periodizer.EveryMonthHasRow` | app.py:28 | Every month that has an observation has a row labelled with its month end. |
| `Periodizer.RowMonthBound` | app.py:28 | No row belongs to a month after the month of the last observation. |
| `Periodizer.RowsStrictlyIncrease` | app.py:28 | Row months strictly increase and row dates are in chronological order, so no month has two rows. |
| `Periodizer.NewMonthAfterEarlierRows` | app.py:28 | An observation that opens a month is in a later month than every row of the earlier observations. |
| `Periodizer.NewMonthFollowsLastRow` | app.py:28 | Without gap months, an observation that opens a month is in the month right after the last earlier row. |
| `Periodizer.NoGapRowsAreConsecutive` | app.py:28 | When no calendar month in the range lacks data, consecutive rows are consecutive months. The resample then inserts no empty rows. |
| `Periodizer.TwoMonthScenario` | app.py:28 | Points on 1, 15 and 31 January and 1 February 2023 give exactly two rows, labelled 31 January and 28 February, with the 1 January and 1 February prices. |
| `Periodizer.SameDayScenario` | app.py:19-28 | A series with two intraday points on 3 January 2023 and one on 1 February is well formed. January's row carries the first of the two same-day prices. |
| `Dca.AccumulateInvestment` | app.py:22-35 | After k monthly rows the running investment is exactly k times the amount. |
| `Dca.SharesSumAppend` | app.py:36 | Adding a row at the end adds exactly `amount / price` of that row to the reference share sum. |
| `Dca.AccumulateShares` | app.py:23-36 | After k rows the running share count equals the exact sum of `amount / price_i` over those rows, with no rounding. |
| `Dca.StepIncrement` | app.py:34-36 | Row k adds exactly the amount to the investment and exactly its units (`amount / price_k`) to the share count. |
| `Dca.TotalsStrictlyIncrease` | app.py:35-36 | With a positive amount and positive prices, the investment and the share count both strictly increase from any step to any later step. |
| `Dca.LogEntryClosedForm` | app.py:33-45 | The log has one entry per row. Entry i carries row i's date, the rounded units bought, the rounded value of (i + 1) amounts and the share sum over rows 0..i. The last increment of that sum is row i's units. The entry's value is that sum at row i's price, rounded. |
| `Dca.RecordOfTotals` | app.py:42-43 | The log entry's share count is the reference share sum, and its portfolio value is that sum at the row's price, rounded. |
| `Dca.LogSnoc` | app.py:37-45 | One more iteration appends exactly one record, for the new row, to the log of the earlier rows. |
| `Dca.SimulateDca` | app.py:22-45 | The loop produces exactly the specified log. It ends with an investment of `count × amount` and a share count equal to the exact sum of `amount / price_i`. |
| `Dca.Summarize` | app.py:47-51 | The summary fails with `EmptySeries` exactly when the log is empty, where line 50 fails because the empty frame has no `'Portfolio Value'` column. |
| `Dca.SummaryClosedForm` | app.py:50-72 | For a non-empty run, the final value is the whole share sum at the last price, rounded. The invested figure is `count × amount`, rounded. The profit is the final value minus the unrounded investment, rounded. |
| `Dca.LastEntryValue` | app.py:43-50 | The last log entry's portfolio value is the whole share sum at the last price, rounded. |
| `Dca.SummarizeRoundedValue` | app.py:50-51 | When the last value is already a whole number of cents, rounding it again at the summary leaves it as it is. The profit is then that value minus the investment, rounded. |
| `Dca.BoughtUnitsAreWorthTheAmount` | app.py:34-43 | Units bought at a price are worth exactly the amount paid, at that price. |
| `Dca.SingleMonth` | app.py:33-51 | With one monthly row, the value and the investment are both the rounded amount, and the profit is their rounded difference. |
| `Dca.EntryInWholeCents` | app.py:37-44 | When every figure of a log entry is a whole number of cents, the entry shows exactly those figures. |
| `Dca.ThreeMonthLog` | app.py:33-45 | Rows at 100, 200 and 100 with 1000 a month buy 10, 5 and 10 units. They accumulate 1000, 2000 and 3000 invested and 10, 15 and 25 shares, worth 1000, 3000 and 2500. |
| `Dca.ThreeMonthSummary` | app.py:50-51 | With the investment taken from the model, that run ends with a final value of 2500, a profit of −500 and an investment of 3000. |
| `Dca.RunDca` | app.py:22-51 | The handler's core gives the specified log of the monthly rows. It fails exactly when the price series is empty. Otherwise its summary is the closed form of `SummaryClosedForm`. |

## Left out

- Form parsing and the `float(...)` conversion of the inputs (`app.py:14-20`): web I/O. The amount is a parameter.
- `yf.download` (`app.py:26`) is a network call. Its result is the `points` parameter of `RunDca`.
- `dropna` (`app.py:27`): the model assumes a NaN-free series.
- Empty months: pandas inserts a NaN row for every calendar month in the range that has no observation. In the loop such a row makes the share count and the values NaN, while line 35 still adds `amount` to `total_investment`, so the invested total counts that month too. The model emits no row for such a month, so both its share count and its invested total differ from the code's there. `NoGapRowsAreConsecutive` proves that no such month exists when neighbouring observations are at most one month apart, and in that case the model's rows are exactly pandas' rows.
- Unsorted input: pandas groups every observation of a month wherever it appears, while `Periodize` groups runs of the same month. The two agree on a series whose dates never go back, as the data provider returns. Several points may share a day, as intraday intervals give. The order lemmas take this as a hypothesis (`WellFormed`).
- Only the `Adj Close` column is modelled, as the price of a point. The other columns of the frame are not read by the core.
- IEEE-754 binary floating point: all arithmetic is exact over `real`. `Round2` is round-half-to-even on the exact value. numpy's `around` multiplies the binary float by 100 in floating point before rounding, so its result can differ from the exact decimal rounding in the last cent.
- A zero price: numpy would produce an infinite or NaN share count. `SimulateDca` and `RunDca` require every monthly price to be non-zero instead.
- The plot, the PNG buffer and the base64 encoding (`app.py:54-69`), the template rendering (`app.py:72-75`) and `app.run` (`app.py:78-79`): presentation and server plumbing.
