/** The monthly resample of the price series: `resample('ME').first()` on a
    sorted, NaN-free series keeps, for every calendar month present, the
    first observation of that month, labelled with the month's last day. */
module Periodizer {
  import opened Calendar

  /** One observed closing price. */
  datatype PricePoint = PricePoint(date: Date, price: real)

  /** One row of the resampled series: the month-end date and the price of
      the month's first observation. */
  datatype MonthlyRow = MonthlyRow(date: Date, price: real)

  /** Dates are real calendar days and never go back along the series; several
      observations may share a day, as intraday intervals give. */
  predicate WellFormed(s: seq<PricePoint>) {
    (forall i :: 0 <= i < |s| ==> ValidDate(s[i].date))
    && (forall i, j :: 0 <= i < j < |s| ==> !Before(s[j].date, s[i].date))
  }

  /** Between two neighbouring observations at most one month boundary is
      crossed: no calendar month inside the range lacks data. */
  predicate NoMonthGaps(s: seq<PricePoint>) {
    forall i :: 0 < i < |s| ==> MonthOf(s[i].date) <= MonthOf(s[i - 1].date) + 1
  }

  /** Point `i` opens a run of its month: nothing before it is in its month
      as far as the neighbouring point can tell. */
  predicate StartsMonth(s: seq<PricePoint>, i: int)
    requires 0 <= i < |s|
  {
    i == 0 || MonthOf(s[i - 1].date) != MonthOf(s[i].date)
  }

  /** No point of the series in the month of point `i` has an earlier date. */
  predicate EarliestInMonth(s: seq<PricePoint>, i: int)
    requires 0 <= i < |s|
  {
    forall k :: 0 <= k < |s| && MonthOf(s[k].date) == MonthOf(s[i].date) ==> !Before(s[k].date, s[i].date)
  }

  function RowOf(p: PricePoint): MonthlyRow
    requires 1 <= p.date.month <= 12
  {
    MonthlyRow(MonthEnd(p.date), p.price)
  }

  /** The resample: one row for every point that starts a month. */
  function Periodize(s: seq<PricePoint>): (rows: seq<MonthlyRow>)
    requires forall i :: 0 <= i < |s| ==> 1 <= s[i].date.month <= 12
    ensures |rows| <= |s|
    ensures rows == [] <==> s == []
    ensures forall j :: 0 <= j < |rows| ==> ValidDate(rows[j].date)
  {
    if s == [] then []
    else
      var n := |s| - 1;
      Periodize(s[..n]) + (if StartsMonth(s, n) then [RowOf(s[n])] else [])
  }

  /** Dropping the last observation keeps every earlier row; the last
      observation adds a row exactly when it opens a month. */
  lemma PeriodizeOfPrefix(s: seq<PricePoint>)
    requires forall i :: 0 <= i < |s| ==> 1 <= s[i].date.month <= 12
    requires s != []
    ensures var n := |s| - 1;
      && (forall j :: 0 <= j < |Periodize(s[..n])| ==> Periodize(s)[j] == Periodize(s[..n])[j])
      && (if StartsMonth(s, n)
          then |Periodize(s)| == |Periodize(s[..n])| + 1 && Periodize(s)[|Periodize(s[..n])|] == RowOf(s[n])
          else |Periodize(s)| == |Periodize(s[..n])|)
  {
  }

  lemma WellFormedPrefix(s: seq<PricePoint>, n: int)
    requires WellFormed(s) && 0 <= n <= |s|
    ensures WellFormed(s[..n])
  {
  }

  /** Every row is the row of a point that starts its month. */
  lemma {:induction false} PeriodizeRowsStartMonths(s: seq<PricePoint>, j: int)
    requires forall i :: 0 <= i < |s| ==> 1 <= s[i].date.month <= 12
    requires 0 <= j < |Periodize(s)|
    ensures exists i :: 0 <= i < |s| && StartsMonth(s, i) && Periodize(s)[j] == RowOf(s[i])
  {
    var n := |s| - 1;
    var p := s[..n];
    var tail := if StartsMonth(s, n) then [RowOf(s[n])] else [];
    assert Periodize(s) == Periodize(p) + tail;
    if j < |Periodize(p)| {
      PeriodizeRowsStartMonths(p, j);
      var i :| 0 <= i < |p| && StartsMonth(p, i) && Periodize(p)[j] == RowOf(p[i]);
      assert p[i] == s[i] && (i == 0 || p[i - 1] == s[i - 1]);
      assert StartsMonth(s, i);
      assert Periodize(s)[j] == RowOf(s[i]);
    } else {
      assert StartsMonth(s, n) && Periodize(s)[j] == RowOf(s[n]);
    }
  }

  /** In a sorted series, a point that starts its month is the earliest
      observation of that month. */
  lemma StartsMonthIsEarliest(s: seq<PricePoint>, i: int)
    requires WellFormed(s)
    requires 0 <= i < |s| && StartsMonth(s, i)
    ensures EarliestInMonth(s, i)
  {
    forall k | 0 <= k < i
      ensures MonthOf(s[k].date) < MonthOf(s[i].date)
    {
      if k < i - 1 {
        NotBeforeMonthOrder(s[k].date, s[i - 1].date);
      }
      NotBeforeMonthOrder(s[i - 1].date, s[i].date);
    }
  }

  /** Each row carries the price of the earliest observation of some month of
      the series, and is labelled with that month's last day. */
  lemma FirstObservationWins(s: seq<PricePoint>, j: int)
    requires WellFormed(s)
    requires 0 <= j < |Periodize(s)|
    ensures exists i :: 0 <= i < |s| && EarliestInMonth(s, i)
              && Periodize(s)[j].price == s[i].price
              && Periodize(s)[j].date == MonthEnd(s[i].date)
  {
    PeriodizeRowsStartMonths(s, j);
    var i :| 0 <= i < |s| && StartsMonth(s, i) && Periodize(s)[j] == RowOf(s[i]);
    StartsMonthIsEarliest(s, i);
  }

  /** The last row is the row of the month of the last observation. */
  lemma {:induction false} LastRowMonth(s: seq<PricePoint>)
    requires forall i :: 0 <= i < |s| ==> 1 <= s[i].date.month <= 12
    requires s != []
    ensures Periodize(s)[|Periodize(s)| - 1].date == MonthEnd(s[|s| - 1].date)
  {
    var n := |s| - 1;
    if !StartsMonth(s, n) {
      LastRowMonth(s[..n]);
      MonthOfInjective(s[n - 1].date, s[n].date);
    }
  }

  /** Every month that has an observation has a row. */
  lemma {:induction false} EveryMonthHasRow(s: seq<PricePoint>, i: int)
    requires forall k :: 0 <= k < |s| ==> 1 <= s[k].date.month <= 12
    requires 0 <= i < |s|
    ensures exists j :: 0 <= j < |Periodize(s)| && Periodize(s)[j].date == MonthEnd(s[i].date)
  {
    var n := |s| - 1;
    var p := s[..n];
    if i < n {
      EveryMonthHasRow(p, i);
      var j :| 0 <= j < |Periodize(p)| && Periodize(p)[j].date == MonthEnd(p[i].date);
      assert Periodize(s)[j] == Periodize(p)[j];
    } else if StartsMonth(s, n) {
      assert Periodize(s)[|Periodize(s)| - 1] == RowOf(s[n]);
    } else {
      LastRowMonth(p);
      MonthOfInjective(s[n - 1].date, s[n].date);
      assert Periodize(s)[|Periodize(p)| - 1] == Periodize(p)[|Periodize(p)| - 1];
    }
  }

  /** No row belongs to a month after that of the last observation. */
  lemma RowMonthBound(s: seq<PricePoint>, j: int)
    requires WellFormed(s)
    requires 0 <= j < |Periodize(s)|
    ensures MonthOf(Periodize(s)[j].date) <= MonthOf(s[|s| - 1].date)
  {
    PeriodizeRowsStartMonths(s, j);
    var i :| 0 <= i < |s| && StartsMonth(s, i) && Periodize(s)[j] == RowOf(s[i]);
    if i < |s| - 1 {
      NotBeforeMonthOrder(s[i].date, s[|s| - 1].date);
    }
  }

  /** Rows follow each other month by month, strictly: no month has two rows,
      and the dates are in chronological order. */
  lemma {:induction false} RowsStrictlyIncrease(s: seq<PricePoint>, j: int, k: int)
    requires WellFormed(s)
    requires 0 <= j < k < |Periodize(s)|
    ensures MonthOf(Periodize(s)[j].date) < MonthOf(Periodize(s)[k].date)
    ensures Before(Periodize(s)[j].date, Periodize(s)[k].date)
  {
    var n := |s| - 1;
    var p := s[..n];
    WellFormedPrefix(s, n);
    PeriodizeOfPrefix(s);
    var a, b := Periodize(s)[j].date, Periodize(s)[k].date;
    if k < |Periodize(p)| {
      RowsStrictlyIncrease(p, j, k);
    } else {
      // row k is the row of s[n], which opens a new month
      NewMonthAfterEarlierRows(s, j);
    }
    EarlierMonthIsBefore(a, b);
  }

  /** An observation that opens a month is in a later month than every row of
      the earlier observations. */
  lemma NewMonthAfterEarlierRows(s: seq<PricePoint>, j: int)
    requires WellFormed(s)
    requires |s| > 1 && StartsMonth(s, |s| - 1)
    requires 0 <= j < |Periodize(s[..|s| - 1])|
    ensures MonthOf(Periodize(s[..|s| - 1])[j].date) < MonthOf(s[|s| - 1].date)
  {
    var n := |s| - 1;
    WellFormedPrefix(s, n);
    RowMonthBound(s[..n], j);
    NotBeforeMonthOrder(s[n - 1].date, s[n].date);
  }

  /** When no month inside the range lacks data, consecutive rows are
      consecutive calendar months: the resample then inserts no empty rows,
      so the rows here are exactly the resampled frame. */
  lemma {:induction false} NoGapRowsAreConsecutive(s: seq<PricePoint>, j: int)
    requires WellFormed(s) && NoMonthGaps(s)
    requires 0 < j < |Periodize(s)|
    ensures MonthOf(Periodize(s)[j].date) == MonthOf(Periodize(s)[j - 1].date) + 1
  {
    var n := |s| - 1;
    var p := s[..n];
    WellFormedPrefix(s, n);
    NoMonthGapsPrefix(s, n);
    PeriodizeOfPrefix(s);
    if j < |Periodize(p)| {
      NoGapRowsAreConsecutive(p, j);
    } else {
      NewMonthFollowsLastRow(s);
    }
  }

  lemma NoMonthGapsPrefix(s: seq<PricePoint>, n: int)
    requires NoMonthGaps(s) && 0 <= n <= |s|
    ensures NoMonthGaps(s[..n])
  {
  }

  /** Without gaps, an observation that opens a month is in the month right
      after the last row of the earlier observations. */
  lemma NewMonthFollowsLastRow(s: seq<PricePoint>)
    requires WellFormed(s) && NoMonthGaps(s)
    requires |s| > 1 && StartsMonth(s, |s| - 1)
    ensures MonthOf(s[|s| - 1].date)
         == MonthOf(Periodize(s[..|s| - 1])[|Periodize(s[..|s| - 1])| - 1].date) + 1
  {
    var n := |s| - 1;
    LastRowMonth(s[..n]);
    NotBeforeMonthOrder(s[n - 1].date, s[n].date);
  }

  /** Observations on 1, 15 and 31 January and 1 February 2023 give two rows,
      labelled 31 January and 28 February, with the 1 January and 1 February
      prices. */
  lemma TwoMonthScenario()
    ensures
      var s := [PricePoint(Date(2023, 1, 1), 10.0), PricePoint(Date(2023, 1, 15), 11.0),
                PricePoint(Date(2023, 1, 31), 12.0), PricePoint(Date(2023, 2, 1), 13.0)];
      Periodize(s) == [MonthlyRow(Date(2023, 1, 31), 10.0), MonthlyRow(Date(2023, 2, 28), 13.0)]
  {
    var s := [PricePoint(Date(2023, 1, 1), 10.0), PricePoint(Date(2023, 1, 15), 11.0),
              PricePoint(Date(2023, 1, 31), 12.0), PricePoint(Date(2023, 2, 1), 13.0)];
    var jan := [MonthlyRow(Date(2023, 1, 31), 10.0)];
    assert s[..1][..0] == [];
    assert Periodize(s[..1]) == jan;
    assert s[..2][..1] == s[..1];
    assert Periodize(s[..2]) == jan;
    assert s[..3][..2] == s[..2];
    assert Periodize(s[..3]) == jan;
    assert s[..3] == s[..|s| - 1];
    assert !IsLeapYear(2023);
  }

  /** Two intraday observations on 3 January 2023 and one on 1 February: the
      series is well formed, and January's row carries the first of the two
      same-day prices. */
  lemma SameDayScenario()
    ensures
      var s := [PricePoint(Date(2023, 1, 3), 10.0), PricePoint(Date(2023, 1, 3), 11.0),
                PricePoint(Date(2023, 2, 1), 12.0)];
      WellFormed(s)
      && Periodize(s) == [MonthlyRow(Date(2023, 1, 31), 10.0), MonthlyRow(Date(2023, 2, 28), 12.0)]
  {
    var s := [PricePoint(Date(2023, 1, 3), 10.0), PricePoint(Date(2023, 1, 3), 11.0),
              PricePoint(Date(2023, 2, 1), 12.0)];
    var jan := [MonthlyRow(Date(2023, 1, 31), 10.0)];
    assert s[..1][..0] == [];
    assert Periodize(s[..1]) == jan;
    assert s[..2][..1] == s[..1];
    assert Periodize(s[..2]) == jan;
    assert s[..2] == s[..|s| - 1];
    assert !IsLeapYear(2023);
  }
}
