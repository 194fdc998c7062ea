/** The dollar-cost-averaging simulation: a fixed amount is invested at every
    monthly row; the running totals, the per-month log and the final summary. */
module Dca {
  import opened Calendar
  import opened Rounding
  import opened Periodizer

  /** The summary cannot be formed from an empty log: its frame has no
      'Portfolio Value' column to read. */
  datatype Error = EmptySeries

  datatype Result<T> = Success(value: T) | Failure(error: Error)

  /** One record of the log: units bought this month (rounded), the running
      investment (rounded), the running share count (exact) and the portfolio
      value at this month's price (rounded). */
  datatype LogEntry = LogEntry(
    date: Date,
    dollarAverageCost: real,
    totalInvestment: real,
    shares: real,
    portfolioValue: real)

  /** The two running variables of the loop. */
  datatype Totals = Totals(investment: real, shares: real)

  /** The figures reported to the user. */
  datatype Summary = Summary(finalPortfolioValue: real, totalProfit: real, totalInvestment: real)

  /** Every row's price can be divided by. */
  predicate PricesNonZero(rows: seq<MonthlyRow>) {
    forall i :: 0 <= i < |rows| ==> rows[i].price != 0.0
  }

  predicate PricesPositive(rows: seq<MonthlyRow>) {
    forall i :: 0 <= i < |rows| ==> rows[i].price > 0.0
  }

  /** Shares that `amount` buys at `price`. */
  function UnitsBought(amount: real, price: real): real
    requires price != 0.0
  {
    amount / price
  }

  /** Value of `shares` at `price`. */
  function MarkToMarket(shares: real, price: real): real {
    shares * price
  }

  /** What `count` monthly contributions of `amount` add up to. */
  function Contributed(count: nat, amount: real): real {
    count as real * amount
  }

  /** One iteration: `amount` more invested, `amount / price` more shares. */
  function Step(t: Totals, amount: real, row: MonthlyRow): Totals
    requires row.price != 0.0
  {
    Totals(t.investment + amount, t.shares + UnitsBought(amount, row.price))
  }

  /** The running totals after the loop has seen `rows`, both starting at 0. */
  function Accumulate(rows: seq<MonthlyRow>, amount: real): Totals
    requires PricesNonZero(rows)
  {
    if rows == [] then Totals(0.0, 0.0)
    else Step(Accumulate(rows[..|rows| - 1], amount), amount, rows[|rows| - 1])
  }

  /** Reference definition of the share count: the sum of amount / price_i. */
  function SharesSum(rows: seq<MonthlyRow>, amount: real): real
    requires PricesNonZero(rows)
  {
    if rows == [] then 0.0 else UnitsBought(amount, rows[0].price) + SharesSum(rows[1..], amount)
  }

  /** The record the loop appends for `row`, given the totals after it. */
  function Record(row: MonthlyRow, amount: real, t: Totals): LogEntry
    requires row.price != 0.0
  {
    LogEntry(row.date, Round2(UnitsBought(amount, row.price)), Round2(t.investment), t.shares,
             Round2(MarkToMarket(t.shares, row.price)))
  }

  /** The log: entry i is the record of row i with the totals after row i. */
  function ExpectedLog(rows: seq<MonthlyRow>, amount: real): seq<LogEntry>
    requires PricesNonZero(rows)
  {
    seq(|rows|, i requires 0 <= i < |rows| => Record(rows[i], amount, Accumulate(rows[..i + 1], amount)))
  }

  /** After k rows, k times the amount has been invested. */
  lemma {:induction false} AccumulateInvestment(rows: seq<MonthlyRow>, amount: real)
    requires PricesNonZero(rows)
    ensures Accumulate(rows, amount).investment == Contributed(|rows|, amount)
  {
    if rows != [] {
      AccumulateInvestment(rows[..|rows| - 1], amount);
    }
  }

  lemma {:induction false} SharesSumAppend(rows: seq<MonthlyRow>, row: MonthlyRow, amount: real)
    requires PricesNonZero(rows) && row.price != 0.0
    ensures SharesSum(rows + [row], amount) == SharesSum(rows, amount) + amount / row.price
  {
    if rows != [] {
      assert (rows + [row])[1..] == rows[1..] + [row];
      SharesSumAppend(rows[1..], row, amount);
    }
  }

  /** After k rows, the share count is the exact sum of amount / price_i. */
  lemma {:induction false} AccumulateShares(rows: seq<MonthlyRow>, amount: real)
    requires PricesNonZero(rows)
    ensures Accumulate(rows, amount).shares == SharesSum(rows, amount)
  {
    if rows != [] {
      var n := |rows| - 1;
      AccumulateShares(rows[..n], amount);
      assert rows == rows[..n] + [rows[n]];
      SharesSumAppend(rows[..n], rows[n], amount);
    }
  }

  /** Row k adds exactly `amount` to the investment and exactly its units to
      the share count. */
  lemma StepIncrement(rows: seq<MonthlyRow>, amount: real, k: int)
    requires PricesNonZero(rows)
    requires 0 <= k < |rows|
    ensures Accumulate(rows[..k + 1], amount).investment == Accumulate(rows[..k], amount).investment + amount
    ensures Accumulate(rows[..k + 1], amount).shares == Accumulate(rows[..k], amount).shares + amount / rows[k].price
  {
    assert rows[..k + 1][..k] == rows[..k];
  }

  /** With a positive amount and positive prices, both running totals strictly
      increase from month to month. */
  lemma {:induction false} TotalsStrictlyIncrease(rows: seq<MonthlyRow>, amount: real, j: int, k: int)
    requires PricesPositive(rows) && amount > 0.0
    requires 0 <= j < k <= |rows|
    ensures Accumulate(rows[..j], amount).investment < Accumulate(rows[..k], amount).investment
    ensures Accumulate(rows[..j], amount).shares < Accumulate(rows[..k], amount).shares
  {
    StepIncrement(rows, amount, k - 1);
    assert amount / rows[k - 1].price > 0.0;
    if j < k - 1 {
      TotalsStrictlyIncrease(rows, amount, j, k - 1);
    }
  }

  /** Entry i in closed form: the date of row i, the units it bought, an
      investment of (i + 1) amounts, the shares summed over rows 0..i (their
      last increment being exactly this month's units), and those shares
      valued at row i's price. */
  lemma LogEntryClosedForm(rows: seq<MonthlyRow>, amount: real, i: int)
    requires PricesNonZero(rows)
    requires 0 <= i < |rows|
    ensures |ExpectedLog(rows, amount)| == |rows|
    ensures ExpectedLog(rows, amount)[i].date == rows[i].date
    ensures ExpectedLog(rows, amount)[i].dollarAverageCost == Round2(UnitsBought(amount, rows[i].price))
    ensures ExpectedLog(rows, amount)[i].totalInvestment == Round2(Contributed(i + 1, amount))
    ensures ExpectedLog(rows, amount)[i].shares == SharesSum(rows[..i + 1], amount)
    ensures ExpectedLog(rows, amount)[i].shares - SharesSum(rows[..i], amount) == amount / rows[i].price
    ensures ExpectedLog(rows, amount)[i].portfolioValue == Round2(MarkToMarket(SharesSum(rows[..i + 1], amount), rows[i].price))
  {
    var t := Accumulate(rows[..i + 1], amount);
    assert ExpectedLog(rows, amount)[i] == Record(rows[i], amount, t);
    AccumulateInvestment(rows[..i + 1], amount);
    AccumulateShares(rows[..i], amount);
    StepIncrement(rows, amount, i);
    RecordOfTotals(rows, amount, i);
  }

  /** The shares and the value of entry i through the reference sum. */
  lemma RecordOfTotals(rows: seq<MonthlyRow>, amount: real, i: int)
    requires PricesNonZero(rows)
    requires 0 <= i < |rows|
    ensures Accumulate(rows[..i + 1], amount).shares == SharesSum(rows[..i + 1], amount)
    ensures Record(rows[i], amount, Accumulate(rows[..i + 1], amount)).portfolioValue
         == Round2(MarkToMarket(SharesSum(rows[..i + 1], amount), rows[i].price))
  {
    AccumulateShares(rows[..i + 1], amount);
  }

  lemma LogSnoc(rows: seq<MonthlyRow>, amount: real, i: int)
    requires PricesNonZero(rows)
    requires 0 <= i < |rows|
    ensures ExpectedLog(rows[..i + 1], amount)
         == ExpectedLog(rows[..i], amount) + [Record(rows[i], amount, Accumulate(rows[..i + 1], amount))]
  {
    var p, q := rows[..i], rows[..i + 1];
    var left := ExpectedLog(q, amount);
    var right := ExpectedLog(p, amount) + [Record(rows[i], amount, Accumulate(q, amount))];
    assert |left| == |right|;
    forall k | 0 <= k < |left|
      ensures left[k] == right[k]
    {
      if k < i {
        assert q[..k + 1] == p[..k + 1];
      } else {
        assert q[..k + 1] == q;
      }
    }
  }

  /** The loop of the handler: for every monthly row, invest `amount`, buy
      `amount / price` shares and append a record to the log. */
  method SimulateDca(rows: seq<MonthlyRow>, amount: real)
    returns (log: seq<LogEntry>, totalInvestment: real, shares: real)
    requires PricesNonZero(rows)
    ensures log == ExpectedLog(rows, amount)
    ensures totalInvestment == Contributed(|rows|, amount)
    ensures shares == SharesSum(rows, amount)
  {
    totalInvestment := 0.0;
    shares := 0.0;
    log := [];
    for i := 0 to |rows|
      invariant Totals(totalInvestment, shares) == Accumulate(rows[..i], amount)
      invariant log == ExpectedLog(rows[..i], amount)
    {
      var row := rows[i];
      var dollarAverageCost := UnitsBought(amount, row.price);
      totalInvestment := totalInvestment + amount;
      shares := shares + UnitsBought(amount, row.price);
      log := log + [LogEntry(row.date, Round2(dollarAverageCost), Round2(totalInvestment),
                             shares, Round2(MarkToMarket(shares, row.price)))];
      StepIncrement(rows, amount, i);
      LogSnoc(rows, amount, i);
    }
    assert rows[..|rows|] == rows;
    AccumulateInvestment(rows, amount);
    AccumulateShares(rows, amount);
  }

  /** Final value and profit: the last entry's value rounded again, and that
      value less the unrounded running investment, rounded. */
  function Summarize(log: seq<LogEntry>, totalInvestment: real): (r: Result<Summary>)
    ensures r.Failure? <==> log == []
  {
    if log == [] then Failure(EmptySeries)
    else
      var finalValue := Round2(log[|log| - 1].portfolioValue);
      Success(Summary(finalValue, Round2(finalValue - totalInvestment), Round2(totalInvestment)))
  }

  /** The summary of a non-empty run in closed form: the final value is the
      whole share count at the last price, the investment is k amounts, the
      profit is their difference. */
  lemma SummaryClosedForm(rows: seq<MonthlyRow>, amount: real)
    requires PricesNonZero(rows) && rows != []
    ensures
      var invested := Contributed(|rows|, amount);
      var value := Round2(MarkToMarket(SharesSum(rows, amount), rows[|rows| - 1].price));
      Summarize(ExpectedLog(rows, amount), invested)
        == Success(Summary(value, Round2(value - invested), Round2(invested)))
  {
    var n := |rows| - 1;
    var log := ExpectedLog(rows, amount);
    var value := Round2(MarkToMarket(SharesSum(rows, amount), rows[n].price));
    LastEntryValue(rows, amount);
    Round2Idempotent(MarkToMarket(SharesSum(rows, amount), rows[n].price));
    SummarizeRoundedValue(log, Contributed(|rows|, amount), value);
  }

  /** The last log entry is valued at the whole share sum and the last price. */
  lemma LastEntryValue(rows: seq<MonthlyRow>, amount: real)
    requires PricesNonZero(rows) && rows != []
    ensures |ExpectedLog(rows, amount)| == |rows|
    ensures ExpectedLog(rows, amount)[|rows| - 1].portfolioValue
         == Round2(MarkToMarket(SharesSum(rows, amount), rows[|rows| - 1].price))
  {
    var n := |rows| - 1;
    assert rows[..n + 1] == rows;
    assert ExpectedLog(rows, amount)[n] == Record(rows[n], amount, Accumulate(rows[..n + 1], amount));
    RecordOfTotals(rows, amount, n);
  }

  /** When the last value is already a whole number of cents, the summary
      reports it as it is. */
  lemma SummarizeRoundedValue(log: seq<LogEntry>, totalInvestment: real, value: real)
    requires log != [] && log[|log| - 1].portfolioValue == value && Round2(value) == value
    ensures Summarize(log, totalInvestment)
         == Success(Summary(value, Round2(value - totalInvestment), Round2(totalInvestment)))
  {
  }

  /** A single month: the value is the amount itself, since amount / p * p is
      the amount. */
  lemma SingleMonth(row: MonthlyRow, amount: real)
    requires row.price != 0.0
    ensures Summarize(ExpectedLog([row], amount), amount)
         == Success(Summary(Round2(amount), Round2(Round2(amount) - amount), Round2(amount)))
  {
    SummaryClosedForm([row], amount);
    assert [row][1..] == [];
    assert SharesSum([row], amount) == UnitsBought(amount, row.price);
    BoughtUnitsAreWorthTheAmount(amount, row.price);
    assert Contributed(1, amount) == amount;
  }

  /** Units bought at a price are worth the amount paid, at that price. */
  lemma BoughtUnitsAreWorthTheAmount(amount: real, price: real)
    requires price != 0.0
    ensures MarkToMarket(UnitsBought(amount, price), price) == amount
  {
  }

  /** When every figure of entry i is a whole number of cents, the log shows
      those figures exactly. */
  lemma EntryInWholeCents(rows: seq<MonthlyRow>, amount: real, i: int,
                          units: int, invested: int, shares: real, value: int)
    requires PricesNonZero(rows)
    requires 0 <= i < |rows|
    requires UnitsBought(amount, rows[i].price) == units as real / 100.0
    requires Contributed(i + 1, amount) == invested as real / 100.0
    requires SharesSum(rows[..i + 1], amount) == shares
    requires MarkToMarket(shares, rows[i].price) == value as real / 100.0
    ensures |ExpectedLog(rows, amount)| == |rows|
    ensures ExpectedLog(rows, amount)[i]
         == LogEntry(rows[i].date, units as real / 100.0, invested as real / 100.0, shares, value as real / 100.0)
  {
    LogEntryClosedForm(rows, amount, i);
    Round2OfCents(units);
    Round2OfCents(invested);
    Round2OfCents(value);
  }

  /** Three months at 100, 200 and 100. */
  const ThreeMonthRows: seq<MonthlyRow> :=
    [MonthlyRow(Date(2023, 1, 31), 100.0),
     MonthlyRow(Date(2023, 2, 28), 200.0),
     MonthlyRow(Date(2023, 3, 31), 100.0)]

  /** With 1000 a month over `ThreeMonthRows`: 10, 5 and 10 units bought,
      1000, 2000 and 3000 invested, 10, 15 and 25 shares held, worth 1000,
      3000 and 2500. */
  lemma ThreeMonthLog()
    ensures ExpectedLog(ThreeMonthRows, 1000.0)
         == [LogEntry(Date(2023, 1, 31), 10.0, 1000.0, 10.0, 1000.0),
             LogEntry(Date(2023, 2, 28), 5.0, 2000.0, 15.0, 3000.0),
             LogEntry(Date(2023, 3, 31), 10.0, 3000.0, 25.0, 2500.0)]
  {
    var rows, amount := ThreeMonthRows, 1000.0;
    assert rows[..1][1..] == [] && rows[..2][1..] == [rows[1]] && [rows[1]][1..] == [];
    assert SharesSum(rows[..1], amount) == 10.0;
    assert SharesSum(rows[..2], amount) == 15.0;
    assert rows[..3] == rows[..2] + [rows[2]];
    SharesSumAppend(rows[..2], rows[2], amount);
    assert SharesSum(rows[..3], amount) == 25.0;
    EntryInWholeCents(rows, amount, 0, 1000, 100000, 10.0, 100000);
    EntryInWholeCents(rows, amount, 1, 500, 200000, 15.0, 300000);
    EntryInWholeCents(rows, amount, 2, 1000, 300000, 25.0, 250000);
  }

  /** The summary of that run: a final value of 2500, a profit of -500 against
      the 3000 invested. */
  lemma ThreeMonthSummary()
    ensures Summarize(ExpectedLog(ThreeMonthRows, 1000.0), Contributed(|ThreeMonthRows|, 1000.0))
         == Success(Summary(2500.0, -500.0, 3000.0))
  {
    ThreeMonthLog();
    assert Contributed(|ThreeMonthRows|, 1000.0) == 3000.0;
    Round2OfCents(250000);
    Round2OfCents(-50000);
    Round2OfCents(300000);
  }

  /** The handler's core: resample the series by month, run the loop, and
      summarize. An empty series gives an empty log, and the summary fails. */
  method RunDca(points: seq<PricePoint>, amount: real)
    returns (log: seq<LogEntry>, summary: Result<Summary>)
    requires forall i :: 0 <= i < |points| ==> 1 <= points[i].date.month <= 12
    requires PricesNonZero(Periodize(points))
    ensures log == ExpectedLog(Periodize(points), amount)
    ensures summary.Failure? <==> points == []
    ensures points != [] ==>
      var rows := Periodize(points);
      var invested := Contributed(|rows|, amount);
      var value := Round2(MarkToMarket(SharesSum(rows, amount), rows[|rows| - 1].price));
      summary == Success(Summary(value, Round2(value - invested), Round2(invested)))
  {
    var rows := Periodize(points);
    var totalInvestment, shares;
    log, totalInvestment, shares := SimulateDca(rows, amount);
    assert |log| == |rows|;
    summary := Summarize(log, totalInvestment);
    if rows != [] {
      SummaryClosedForm(rows, amount);
      assert summary == Summarize(ExpectedLog(rows, amount), Contributed(|rows|, amount));
    }
  }
}
