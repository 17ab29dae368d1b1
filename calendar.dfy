/**
 * The proleptic Gregorian calendar as Python's datetime.date counts it: day 1 is
 * 0001-01-01 and the last representable day, 9999-12-31, is day MaxOrdinal.
 * The generator needs it twice: datetime.combine turns a date into its midnight
 * instant, and strftime turns an instant back into year, month and day.
 */
module Calendar {
  import opened Arith

  const MinYear: int := 1
  const MaxYear: int := 9999
  /** date(9999, 12, 31).toordinal() */
  const MaxOrdinal: int := 3652059

  datatype Date = Date(year: int, month: int, day: int)

  predicate IsLeap(y: int) {
    y % 4 == 0 && (y % 100 != 0 || y % 400 == 0)
  }

  function DaysInYear(y: int): int {
    if IsLeap(y) then 366 else 365
  }

  function DaysInMonth(y: int, m: int): (n: int)
    requires 1 <= m <= 12
    ensures 28 <= n <= 31
  {
    if m == 2 then (if IsLeap(y) then 29 else 28)
    else if m == 4 || m == 6 || m == 9 || m == 11 then 30
    else 31
  }

  /** Days in the months of year y before month m; month 13 stands for the whole year. */
  function DaysBeforeMonth(y: int, m: int): int
    requires 1 <= m <= 13
  {
    [0, 31, 59, 90, 120, 151, 181, 212, 243, 273, 304, 334, 365][m - 1]
      + (if m > 2 && IsLeap(y) then 1 else 0)
  }

  /** Days in the years before year y. */
  function DaysBeforeYear(y: int): int
    requires y >= 1
  {
    var p := y - 1;
    p * 365 + p / 4 - p / 100 + p / 400
  }

  predicate ValidDate(d: Date) {
    && MinYear <= d.year <= MaxYear
    && 1 <= d.month <= 12
    && 1 <= d.day <= DaysInMonth(d.year, d.month)
  }

  /** date.toordinal() */
  function Ordinal(d: Date): (n: int)
    requires ValidDate(d)
    ensures DaysBeforeYear(d.year) < n <= DaysBeforeYear(d.year + 1)
    ensures 1 <= n <= MaxOrdinal
  {
    DaysBeforeMonthStep(d.year, d.month);
    assert DaysBeforeMonth(d.year, d.month + 1) <= DaysBeforeMonth(d.year, 13);
    DaysBeforeYearStep(d.year);
    DaysBeforeYearMonotone(d.year + 1, MaxYear + 1);
    DaysBeforeYear(d.year) + DaysBeforeMonth(d.year, d.month) + d.day
  }

  lemma DaysBeforeMonthStep(y: int, m: int)
    requires 1 <= m <= 12
    ensures DaysBeforeMonth(y, m + 1) == DaysBeforeMonth(y, m) + DaysInMonth(y, m)
    ensures DaysBeforeMonth(y, 13) == DaysInYear(y)
  {
  }

  lemma DaysBeforeYearStep(y: int)
    requires y >= 1
    ensures DaysBeforeYear(y + 1) == DaysBeforeYear(y) + DaysInYear(y)
  {
    var p := y - 1;
    DivStep(p, 4);
    DivStep(p, 100);
    DivStep(p, 400);
    assert y % 100 == 0 ==> y % 4 == 0;
    assert y % 400 == 0 ==> y % 100 == 0;
  }

  lemma {:induction false} DaysBeforeYearMonotone(a: int, b: int)
    requires 1 <= a <= b
    ensures DaysBeforeYear(a) + 365 * (b - a) <= DaysBeforeYear(b)
    decreases b - a
  {
    if a < b {
      DaysBeforeYearMonotone(a, b - 1);
      DaysBeforeYearStep(b - 1);
    }
  }

  /** The year that holds day n, searching upwards from year y. */
  function YearOf(n: int, y: int): (r: int)
    requires y >= 1 && DaysBeforeYear(y) < n
    ensures r >= y && DaysBeforeYear(r) < n <= DaysBeforeYear(r + 1)
    decreases n - DaysBeforeYear(y)
  {
    DaysBeforeYearStep(y);
    if n <= DaysBeforeYear(y + 1) then y else YearOf(n, y + 1)
  }

  /** The month of year y that holds day-of-year t, searching upwards from month m. */
  function MonthOf(y: int, t: int, m: int): (r: int)
    requires 1 <= m <= 12 && DaysBeforeMonth(y, m) < t <= DaysInYear(y)
    ensures m <= r <= 12 && DaysBeforeMonth(y, r) < t <= DaysBeforeMonth(y, r + 1)
    decreases 12 - m
  {
    DaysBeforeMonthStep(y, m);
    if m == 12 || t <= DaysBeforeMonth(y, m + 1) then m else MonthOf(y, t, m + 1)
  }

  /** date.fromordinal(n) */
  function FromOrdinal(n: int): (d: Date)
    requires 1 <= n <= MaxOrdinal
    ensures ValidDate(d) && Ordinal(d) == n
  {
    var y := YearOf(n, 1);
    if y > MaxYear then DaysBeforeYearMonotone(MaxYear + 1, y); assert false; Date(y, 1, 1)
    else
      DaysBeforeYearStep(y);
      var t := n - DaysBeforeYear(y);
      var m := MonthOf(y, t, 1);
      DaysBeforeMonthStep(y, m);
      Date(y, m, t - DaysBeforeMonth(y, m))
  }

  /** date.fromordinal(d.toordinal()) == d: a day number names exactly one date. */
  lemma FromOrdinalOfOrdinal(d: Date)
    requires ValidDate(d)
    ensures FromOrdinal(Ordinal(d)) == d
  {
    var e := FromOrdinal(Ordinal(d));
    SameOrdinalSameYear(d, e);
    SameOrdinalSameMonth(d, e);
  }

  lemma SameOrdinalSameYear(d: Date, e: Date)
    requires ValidDate(d) && ValidDate(e) && Ordinal(d) == Ordinal(e)
    ensures d.year == e.year
  {
    if e.year < d.year {
      DaysBeforeYearMonotone(e.year + 1, d.year);
    } else if d.year < e.year {
      DaysBeforeYearMonotone(d.year + 1, e.year);
    }
  }

  lemma SameOrdinalSameMonth(d: Date, e: Date)
    requires ValidDate(d) && ValidDate(e) && Ordinal(d) == Ordinal(e) && d.year == e.year
    ensures d == e
  {
    var y := d.year;
    if e.month < d.month {
      DaysBeforeMonthStep(y, e.month);
      MonthsBefore(y, e.month + 1, d.month);
      assert false;
    } else if d.month < e.month {
      DaysBeforeMonthStep(y, d.month);
      MonthsBefore(y, d.month + 1, e.month);
      assert false;
    }
  }

  lemma {:induction false} MonthsBefore(y: int, a: int, b: int)
    requires 1 <= a <= b <= 13
    ensures DaysBeforeMonth(y, a) + 28 * (b - a) <= DaysBeforeMonth(y, b)
    decreases b - a
  {
    if a < b {
      DaysBeforeMonthStep(y, a);
      MonthsBefore(y, a + 1, b);
    }
  }
}
