/**
 * The proleptic Gregorian calendar shared by Python's `datetime` and
 * JavaScript's `Date`. A day is named by its ordinal, Python's
 * `date.toordinal()`: 0001-01-01 is day 1, a Monday. Timestamps are whole
 * seconds, and day `n` starts at second `n * SecondsPerDay`.
 */
module Calendar {

  const SecondsPerDay: int := 86400

  predicate IsLeapYear(y: int) {
    y % 4 == 0 && (y % 100 != 0 || y % 400 == 0)
  }

  function DaysInYear(y: int): int {
    if IsLeapYear(y) then 366 else 365
  }

  function DaysInMonth(y: int, m: int): (n: int)
    requires 1 <= m <= 12
    ensures 28 <= n <= 31
  {
    if m == 2 then (if IsLeapYear(y) then 29 else 28)
    else if m == 4 || m == 6 || m == 9 || m == 11 then 30
    else 31
  }

  /** Days of year y that come before the first of month m. */
  function DaysBeforeMonth(y: int, m: int): int
    requires 1 <= m <= 12
  {
    var common :=
      match m
      case 1 => 0    case 2 => 31   case 3 => 59   case 4 => 90
      case 5 => 120  case 6 => 151  case 7 => 181  case 8 => 212
      case 9 => 243  case 10 => 273 case 11 => 304 case _ => 334;
    common + (if m > 2 && IsLeapYear(y) then 1 else 0)
  }

  /** Days before January 1 of year y, counted from January 1 of year 1. */
  function DaysBeforeYear(y: int): int
    decreases if y >= 1 then y - 1 else 1 - y
  {
    if y == 1 then 0
    else if y > 1 then DaysBeforeYear(y - 1) + DaysInYear(y - 1)
    else DaysBeforeYear(y + 1) - DaysInYear(y)
  }

  datatype Date = Date(year: int, month: int, day: int)

  predicate ValidDate(d: Date) {
    1 <= d.month <= 12 && 1 <= d.day <= DaysInMonth(d.year, d.month)
  }

  /** The day number of d; a day outside its month counts on into the neighbouring months. */
  function Ordinal(d: Date): int
    requires 1 <= d.month <= 12
  {
    DaysBeforeYear(d.year) + DaysBeforeMonth(d.year, d.month) + d.day
  }

  /** Day of the week as JavaScript's getDay() numbers it: 0 is Sunday (day 1 is a Monday). */
  function Weekday(ordinal: int): (w: int)
    ensures 0 <= w < 7
  {
    ordinal % 7
  }

  function DayStart(day: int): int {
    day * SecondsPerDay
  }

  /** The day number of the day a timestamp falls in. */
  function DayOf(t: int): int {
    t / SecondsPerDay
  }

  function NextMonthOf(y: int, m: int): (r: (int, int))
    requires 1 <= m <= 12
    ensures 1 <= r.1 <= 12
  {
    if m == 12 then (y + 1, 1) else (y, m + 1)
  }

  function PreviousMonthOf(y: int, m: int): (r: (int, int))
    requires 1 <= m <= 12
    ensures 1 <= r.1 <= 12
  {
    if m == 1 then (y - 1, 12) else (y, m - 1)
  }

  function FirstOfNextMonth(y: int, m: int): Date
    requires 1 <= m <= 12
  {
    var (ny, nm) := NextMonthOf(y, m);
    Date(ny, nm, 1)
  }

  lemma YearStep(y: int)
    ensures DaysBeforeYear(y + 1) == DaysBeforeYear(y) + DaysInYear(y)
  {
  }

  lemma MonthStep(y: int, m: int)
    requires 1 <= m <= 12
    ensures var (ny, nm) := NextMonthOf(y, m);
            DaysBeforeYear(ny) + DaysBeforeMonth(ny, nm)
            == DaysBeforeYear(y) + DaysBeforeMonth(y, m) + DaysInMonth(y, m)
  {
    YearStep(y);
  }

  /**
   * Setting the day of month of a date in year y, month m to d, as
   * JavaScript's setDate does and as Python's date arithmetic does: a day
   * outside the month rolls into the neighbouring months and years. The result
   * is a valid date with the same day number (and, by OrdinalInjective, the
   * only one).
   */
  function NormalizeDate(y: int, m: int, d: int): (r: Date)
    requires 1 <= m <= 12
    ensures ValidDate(r)
    ensures Ordinal(r) == Ordinal(Date(y, m, d))
    decreases d < 1, if d < 1 then 1 - d else d
  {
    if d < 1 then
      var (py, pm) := PreviousMonthOf(y, m);
      MonthStep(py, pm);
      NormalizeDate(py, pm, d + DaysInMonth(py, pm))
    else if d > DaysInMonth(y, m) then
      var (ny, nm) := NextMonthOf(y, m);
      MonthStep(y, m);
      NormalizeDate(ny, nm, d - DaysInMonth(y, m))
    else
      Date(y, m, d)
  }

  /** The date `days` days after (before, when negative) a valid date. */
  function AddDays(d: Date, days: int): (r: Date)
    requires ValidDate(d)
    ensures ValidDate(r) && Ordinal(r) == Ordinal(d) + days
  {
    NormalizeDate(d.year, d.month, d.day + days)
  }

  lemma {:induction false} YearsApart(y1: int, y2: int)
    requires y1 < y2
    ensures DaysBeforeYear(y1) + DaysInYear(y1) <= DaysBeforeYear(y2)
    decreases y2 - y1
  {
    YearStep(y1);
    if y1 + 1 < y2 {
      YearsApart(y1 + 1, y2);
    }
  }

  lemma MonthsApart(y: int, m1: int, m2: int)
    requires 1 <= m1 < m2 <= 12
    ensures DaysBeforeMonth(y, m1) + DaysInMonth(y, m1) <= DaysBeforeMonth(y, m2)
  {
  }

  lemma OrdinalWithinYear(d: Date)
    requires ValidDate(d)
    ensures DaysBeforeYear(d.year) < Ordinal(d) <= DaysBeforeYear(d.year) + DaysInYear(d.year)
  {
  }

  /** Different valid dates have different day numbers. */
  lemma OrdinalInjective(a: Date, b: Date)
    requires ValidDate(a) && ValidDate(b)
    requires Ordinal(a) == Ordinal(b)
    ensures a == b
  {
    OrdinalWithinYear(a);
    OrdinalWithinYear(b);
    if a.year < b.year {
      YearsApart(a.year, b.year);
    } else if b.year < a.year {
      YearsApart(b.year, a.year);
    } else if a.month < b.month {
      MonthsApart(a.year, a.month, b.month);
    } else if b.month < a.month {
      MonthsApart(a.year, b.month, a.month);
    }
  }

  /**
   * The recursive year count agrees with the closed form Python's datetime
   * module uses (`_days_before_year`), for every year.
   */
  lemma {:induction false} DaysBeforeYearClosedForm(y: int)
    ensures DaysBeforeYear(y) == 365 * (y - 1) + (y - 1) / 4 - (y - 1) / 100 + (y - 1) / 400
    decreases if y >= 1 then y - 1 else 1 - y
  {
    if y > 1 {
      DaysBeforeYearClosedForm(y - 1);
      StepQuotients(y - 1);
      LeapFromRemainders(y - 1);
    } else if y < 1 {
      DaysBeforeYearClosedForm(y + 1);
      StepQuotients(y);
      LeapFromRemainders(y);
    }
  }

  lemma LeapFromRemainders(n: int)
    ensures DaysInYear(n) - 365
            == (if n % 4 == 0 then 1 else 0) - (if n % 100 == 0 then 1 else 0) + (if n % 400 == 0 then 1 else 0)
  {
    if n % 400 == 0 {
      MultipleOf400(n);
    }
    if n % 100 == 0 {
      MultipleOf100(n);
    }
  }

  lemma MultipleOf400(n: int)
    requires n % 400 == 0
    ensures n % 100 == 0
  {
    var q := n / 400;
    assert n == 100 * (4 * q);
  }

  lemma MultipleOf100(n: int)
    requires n % 100 == 0
    ensures n % 4 == 0
  {
    var q := n / 100;
    assert n == 4 * (25 * q);
  }

  /** How the three quotients of the closed form change from year n - 1 to year n. */
  lemma StepQuotients(n: int)
    ensures n / 4 - (n - 1) / 4 == (if n % 4 == 0 then 1 else 0)
    ensures n / 100 - (n - 1) / 100 == (if n % 100 == 0 then 1 else 0)
    ensures n / 400 - (n - 1) / 400 == (if n % 400 == 0 then 1 else 0)
  {
  }

  /** Thirty-one days after the first of a month is always in the following month. */
  lemma ThirtyOneDaysAfterFirst(y: int, m: int)
    requires 1 <= m <= 12
    ensures var r := AddDays(Date(y, m, 1), 31);
            Date(r.year, r.month, 1) == FirstOfNextMonth(y, m)
  {
    var (ny, nm) := NextMonthOf(y, m);
    var rest := 32 - DaysInMonth(y, m);
    assert 1 <= rest <= DaysInMonth(ny, nm);
    assert NormalizeDate(ny, nm, rest) == Date(ny, nm, rest);
    assert NormalizeDate(y, m, 32) == NormalizeDate(ny, nm, rest);
  }

  /** A month is as long as the distance between its first day and the next month's first day. */
  lemma NextMonthDistance(y: int, m: int)
    requires 1 <= m <= 12
    ensures Ordinal(FirstOfNextMonth(y, m)) == Ordinal(Date(y, m, 1)) + DaysInMonth(y, m)
  {
    MonthStep(y, m);
  }

  /** Day `day` covers exactly the timestamps of the half-open range [DayStart(day), DayStart(day + 1)). */
  lemma DayRange(t: int, day: int)
    ensures DayStart(day) <= t < DayStart(day + 1) <==> DayOf(t) == day
  {
  }

  /** Python's `date.max`, 9999-12-31, as a day number: date arithmetic past it raises OverflowError. */
  const MaxOrdinal: int := 3652059

  /** There is no valid date after 9999-12-31 in years up to 9999, and that date is day MaxOrdinal. */
  lemma LastDate(d: Date)
    requires ValidDate(d) && d.year <= 9999
    ensures Ordinal(Date(9999, 12, 31)) == MaxOrdinal
    ensures Ordinal(d) <= MaxOrdinal
    ensures Ordinal(d) == MaxOrdinal <==> d == Date(9999, 12, 31)
  {
    LastDateOrdinal();
    OrdinalWithinYear(d);
    if d.year < 9999 {
      YearsApart(d.year, 9999);
    }
    if Ordinal(d) == MaxOrdinal {
      OrdinalInjective(d, Date(9999, 12, 31));
    }
  }

  lemma LastDateOrdinal()
    ensures Ordinal(Date(9999, 12, 31)) == MaxOrdinal
    ensures DaysBeforeYear(9999) + DaysInYear(9999) == MaxOrdinal
  {
    DaysBeforeYearClosedForm(9999);
  }

  /** 1970-01-04, a Sunday. */
  const KnownSunday: int := 719166

  /** Weekday counts days from a known Sunday: 1970-01-04 is day KnownSunday and has weekday 0. */
  lemma WeekdayFromKnownSunday(o: int)
    ensures Ordinal(Date(1970, 1, 4)) == KnownSunday
    ensures Weekday(o) == (o - KnownSunday) % 7
    ensures Weekday(o + 1) == (Weekday(o) + 1) % 7
  {
    DaysBeforeYearClosedForm(1970);
  }
}
