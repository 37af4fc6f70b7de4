/**
  Proleptic-Gregorian dates as Python's `datetime` module has them: years
  MINYEAR = 1 to MAXYEAR = 9999, month lengths with leap years, the ordinal
  day number of `toordinal()` (1 is 0001-01-01), comparison of dates, and the
  two helpers of Retrieve.py built on `replace(day=1)` and `timedelta(days=1)`.
*/
module Calendar {

  const MinYear := 1
  const MaxYear := 9999

  datatype Date = Date(year: int, month: int, day: int)

  /** The earliest date `datetime` can represent; it has no previous day. */
  const MinDate := Date(MinYear, 1, 1)

  predicate IsLeapYear(y: int) {
    y % 4 == 0 && (y % 100 != 0 || y % 400 == 0)
  }

  function DaysInMonth(y: int, m: int): (n: int)
    requires 1 <= m <= 12
    ensures 28 <= n <= 31
  {
    if m == 2 then (if IsLeapYear(y) then 29 else 28)
    else if m == 4 || m == 6 || m == 9 || m == 11 then 30
    else 31
  }

  function DaysInYear(y: int): int {
    if IsLeapYear(y) then 366 else 365
  }

  predicate ValidDate(d: Date) {
    && MinYear <= d.year <= MaxYear
    && 1 <= d.month <= 12
    && 1 <= d.day <= DaysInMonth(d.year, d.month)
  }

  /** `a < b` on dates: Python compares dates field by field. */
  predicate Before(a: Date, b: Date) {
    || a.year < b.year
    || (a.year == b.year && a.month < b.month)
    || (a.year == b.year && a.month == b.month && a.day < b.day)
  }

  /** `a <= b` on dates. */
  predicate NotAfter(a: Date, b: Date) {
    a == b || Before(a, b)
  }

  /** The calendar month before month `m` of year `y`, as (year, month). */
  function PrevMonth(y: int, m: int): (int, int) {
    if m == 1 then (y - 1, 12) else (y, m - 1)
  }

  /** `d - timedelta(days=1)`; undefined on MinDate, where Python raises OverflowError. */
  function PrevDay(d: Date): (r: Date)
    requires ValidDate(d) && d != MinDate
    ensures ValidDate(r) && Before(r, d)
  {
    if d.day > 1 then Date(d.year, d.month, d.day - 1)
    else if d.month > 1 then Date(d.year, d.month - 1, DaysInMonth(d.year, d.month - 1))
    else Date(d.year - 1, 12, 31)
  }

  /** get_first_day_of_month: `date.replace(day=1)`. */
  function FirstDayOfMonth(d: Date): (r: Date)
    requires ValidDate(d)
    ensures ValidDate(r) && NotAfter(r, d)
    ensures r == Date(d.year, d.month, 1)
  {
    d.(day := 1)
  }

  /** No valid date lies strictly between PrevDay(d) and d. */
  lemma PrevDayIsImmediate(d: Date, e: Date)
    requires ValidDate(d) && d != MinDate && ValidDate(e)
    ensures Before(e, d) ==> NotAfter(e, PrevDay(d))
  {
  }

  /** The first day of a month is the earliest valid date of that month. */
  lemma FirstDayIsEarliest(d: Date, e: Date)
    requires ValidDate(d) && ValidDate(e) && e.year == d.year && e.month == d.month
    ensures NotAfter(FirstDayOfMonth(d), e)
  {
  }

  /**
    get_last_day_of_previous_month: the day before the 1st of `d`'s month.
    It needs a month before `d`'s, which every date after January of year 1 has.
  */
  function LastDayOfPreviousMonth(d: Date): (r: Date)
    requires ValidDate(d) && !(d.year == MinYear && d.month == 1)
    ensures ValidDate(r) && Before(r, FirstDayOfMonth(d))
    ensures (r.year, r.month) == PrevMonth(d.year, d.month)
    ensures r.day == DaysInMonth(r.year, r.month)
    ensures d.month == 1 ==> r == Date(d.year - 1, 12, 31)
  {
    PrevDay(FirstDayOfMonth(d))
  }

  // ---------------------------------------------------------------------------
  // Ordinal day numbers (`date.toordinal()`)

  function DaysBeforeYear(y: int): nat
    requires y >= MinYear
    decreases y
  {
    if y == MinYear then 0 else DaysBeforeYear(y - 1) + DaysInYear(y - 1)
  }

  function DaysBeforeMonth(y: int, m: int): nat
    requires 1 <= m <= 12
    decreases m
  {
    if m == 1 then 0 else DaysBeforeMonth(y, m - 1) + DaysInMonth(y, m - 1)
  }

  function Ordinal(d: Date): nat
    requires ValidDate(d)
  {
    DaysBeforeYear(d.year) + DaysBeforeMonth(d.year, d.month) + d.day
  }

  /** The twelve months of a year add up to the year's length. */
  lemma DecemberEndsYear(y: int)
    ensures DaysBeforeMonth(y, 12) + 31 == DaysInYear(y)
  {
    assert DaysBeforeMonth(y, 1) == 0;
    assert DaysBeforeMonth(y, 2) == 31;
    assert DaysBeforeMonth(y, 3) == 31 + DaysInMonth(y, 2);
    assert DaysBeforeMonth(y, 4) == 62 + DaysInMonth(y, 2);
    assert DaysBeforeMonth(y, 5) == 92 + DaysInMonth(y, 2);
    assert DaysBeforeMonth(y, 6) == 123 + DaysInMonth(y, 2);
    assert DaysBeforeMonth(y, 7) == 153 + DaysInMonth(y, 2);
    assert DaysBeforeMonth(y, 8) == 184 + DaysInMonth(y, 2);
    assert DaysBeforeMonth(y, 9) == 215 + DaysInMonth(y, 2);
    assert DaysBeforeMonth(y, 10) == 245 + DaysInMonth(y, 2);
    assert DaysBeforeMonth(y, 11) == 276 + DaysInMonth(y, 2);
    assert DaysBeforeMonth(y, 12) == 306 + DaysInMonth(y, 2);
  }

  /** Every day of month `m1` lies before the first day of a later month `m2`. */
  lemma {:induction false} MonthsAscend(y: int, m1: int, m2: int)
    requires 1 <= m1 < m2 <= 12
    ensures DaysBeforeMonth(y, m1) + DaysInMonth(y, m1) <= DaysBeforeMonth(y, m2)
    decreases m2
  {
    if m1 < m2 - 1 {
      MonthsAscend(y, m1, m2 - 1);
    }
  }

  /** Every day of a year lies within that year's length. */
  lemma MonthWithinYear(y: int, m: int)
    requires 1 <= m <= 12
    ensures DaysBeforeMonth(y, m) + DaysInMonth(y, m) <= DaysInYear(y)
  {
    DecemberEndsYear(y);
    if m < 12 {
      MonthsAscend(y, m, 12);
    }
  }

  /** Every day of year `y1` lies before the first day of a later year `y2`. */
  lemma {:induction false} YearsAscend(y1: int, y2: int)
    requires MinYear <= y1 < y2
    ensures DaysBeforeYear(y1) + DaysInYear(y1) <= DaysBeforeYear(y2)
    decreases y2
  {
    if y1 < y2 - 1 {
      YearsAscend(y1, y2 - 1);
    }
  }

  /** Python's date order is the order of ordinal day numbers. */
  lemma OrdinalOrder(a: Date, b: Date)
    requires ValidDate(a) && ValidDate(b)
    ensures Before(a, b) <==> Ordinal(a) < Ordinal(b)
    ensures a == b <==> Ordinal(a) == Ordinal(b)
  {
    if Before(a, b) {
      OrdinalAscends(a, b);
    } else if Before(b, a) {
      OrdinalAscends(b, a);
    }
  }

  lemma OrdinalAscends(a: Date, b: Date)
    requires ValidDate(a) && ValidDate(b) && Before(a, b)
    ensures Ordinal(a) < Ordinal(b)
  {
    if a.year < b.year {
      MonthWithinYear(a.year, a.month);
      YearsAscend(a.year, b.year);
    } else if a.month < b.month {
      MonthsAscend(a.year, a.month, b.month);
    }
  }

  /** PrevDay is exactly one day back: `timedelta(days=1)` subtracts one from the ordinal. */
  lemma PrevDayOrdinal(d: Date)
    requires ValidDate(d) && d != MinDate
    ensures Ordinal(PrevDay(d)) == Ordinal(d) - 1
  {
    if d.day == 1 && d.month == 1 {
      DecemberEndsYear(d.year - 1);
    }
  }
}
