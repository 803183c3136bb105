/**
 * The URL selection of the report page (frontend/src/components/DailyReport.tsx,
 * `fetchReport`), over a calendar-date model of JavaScript's `Date`.
 */
module ReportView {
  import opened Calendar
  import opened Decimal

  const ReportsRoot: string := "/reports/"

  /**
   * A JavaScript `Date`, reduced to its local calendar date: the full year,
   * the month counted from 0 as `getMonth()` counts it, and the day of month.
   */
  class JsDate {
    var year: int
    var month: int
    var date: int

    ghost predicate Valid()
      reads this
    {
      ValidDate(Date(year, month + 1, date))
    }

    /** The calendar date, with a 1-based month. */
    function AsDate(): Date
      reads this
    {
      Date(year, month + 1, date)
    }

    /** `getDay()`: days since the Sunday 1970-01-04, modulo 7, so 0 is Sunday. */
    function GetDay(): (w: int)
      reads this
      requires Valid()
      ensures 0 <= w < 7
      ensures w == (Ordinal(AsDate()) - Ordinal(Date(1970, 1, 4))) % 7
    {
      WeekdayFromKnownSunday(Ordinal(AsDate()));
      Weekday(Ordinal(AsDate()))
    }

    /** `new Date(other)`: a copy. */
    constructor Copy(other: JsDate)
      requires other.Valid()
      ensures Valid() && AsDate() == other.AsDate()
    {
      year := other.year;
      month := other.month;
      date := other.date;
    }

    /** `setDate(d)`: a day outside the month rolls into the neighbouring months and years. */
    method SetDate(d: int)
      requires Valid()
      modifies this
      ensures Valid()
      ensures AsDate() == NormalizeDate(old(year), old(month) + 1, d)
      ensures Ordinal(AsDate()) == Ordinal(Date(old(year), old(month) + 1, d))
    {
      var r := NormalizeDate(year, month + 1, d);
      year, month, date := r.year, r.month - 1, r.day;
    }
  }

  /** The Sunday that starts the week of d: d minus its weekday number. */
  function WeekStart(d: Date): (s: Date)
    requires ValidDate(d)
    ensures ValidDate(s)
  {
    AddDays(d, -Weekday(Ordinal(d)))
  }

  /** The week start is a Sunday, on or before the date and at most six days earlier. */
  lemma WeekStartIsPrecedingSunday(d: Date)
    requires ValidDate(d)
    ensures var s := WeekStart(d);
      && ValidDate(s)
      && Weekday(Ordinal(s)) == 0
      && Ordinal(s) <= Ordinal(d) <= Ordinal(s) + 6
  {
    RoundDownToSunday(Ordinal(d));
  }

  lemma RoundDownToSunday(o: int)
    ensures (o - o % 7) % 7 == 0 && o - 6 <= o - o % 7 <= o
  {
    assert o - o % 7 == 7 * (o / 7);
  }

  /** `${a}/${b}`. */
  function Path2(a: int, b: int): string {
    IntToString(a) + ("/" + IntToString(b))
  }

  /** `${a}/${b}/${c}`. */
  function Path3(a: int, b: int, c: int): string {
    IntToString(a) + ("/" + Path2(b, c))
  }

  /** `/reports/` followed by the report kind's directory and the rest of the path. */
  function ReportPath(kind: string, rest: string): string {
    ReportsRoot + (kind + rest)
  }

  /** The URL `fetchReport` requests for a report type and a date (1-based month). */
  function ReportUrl(reportType: string, d: Date): (url: string)
    requires ValidDate(d)
    ensures |url| > |ReportsRoot| && url[..|ReportsRoot|] == ReportsRoot
    ensures url[|ReportsRoot|] == if reportType == "daily" then 'd' else if reportType == "weekly" then 'w' else 'm'
  {
    var kind := if reportType == "daily" then "daily/" else if reportType == "weekly" then "weekly/" else "monthly/";
    var rest :=
      if reportType == "daily" then Path3(d.year, d.month, d.day)
      else if reportType == "weekly" then
        var s := WeekStart(d);
        Path3(s.year, s.month, s.day)
      else Path2(d.year, d.month);
    ReportPathShape(kind, rest);
    assert kind[0] == if reportType == "daily" then 'd' else if reportType == "weekly" then 'w' else 'm';
    ReportPath(kind, rest)
  }

  lemma ReportPathShape(kind: string, rest: string)
    requires |kind| > 0
    ensures var url := ReportPath(kind, rest);
      |url| > |ReportsRoot| && url[..|ReportsRoot|] == ReportsRoot && url[|ReportsRoot|] == kind[0]
  {
  }

  /** The monthly URL does not depend on the day. */
  lemma MonthlyUrlIgnoresDay(reportType: string, d1: Date, d2: Date)
    requires ValidDate(d1) && ValidDate(d2)
    requires reportType != "daily" && reportType != "weekly"
    requires d1.year == d2.year && d1.month == d2.month
    ensures ReportUrl(reportType, d1) == ReportUrl(reportType, d2)
  {
  }

  lemma DropPrefix(p: string, x: string, y: string)
    requires p + x == p + y
    ensures x == y
  {
    assert x == (p + x)[|p|..];
    assert y == (p + y)[|p|..];
  }

  /** Two numbers joined by '/' can be read back. */
  lemma Path2Injective(a1: int, b1: int, a2: int, b2: int)
    requires Path2(a1, b1) == Path2(a2, b2)
    ensures a1 == a2 && b1 == b2
  {
    IntFollowedBy(a1, "/" + IntToString(b1), a2, "/" + IntToString(b2));
    DropPrefix("/", IntToString(b1), IntToString(b2));
    IntToStringInjective(b1, b2);
  }

  /** Three numbers joined by '/' can be read back: different dates give different paths. */
  lemma Path3Injective(a1: int, b1: int, c1: int, a2: int, b2: int, c2: int)
    requires Path3(a1, b1, c1) == Path3(a2, b2, c2)
    ensures a1 == a2 && b1 == b2 && c1 == c2
  {
    IntFollowedBy(a1, "/" + Path2(b1, c1), a2, "/" + Path2(b2, c2));
    DropPrefix("/", Path2(b1, c1), Path2(b2, c2));
    Path2Injective(b1, c1, b2, c2);
  }

  lemma ReportPathInjective(kind: string, rest1: string, rest2: string)
    requires ReportPath(kind, rest1) == ReportPath(kind, rest2)
    ensures rest1 == rest2
  {
    DropPrefix(ReportsRoot, kind + rest1, kind + rest2);
    DropPrefix(kind, rest1, rest2);
  }

  /** The daily URL names the date: two dates share a daily URL only when they are the same date. */
  lemma DailyUrlInjective(d1: Date, d2: Date)
    requires ValidDate(d1) && ValidDate(d2)
    requires ReportUrl("daily", d1) == ReportUrl("daily", d2)
    ensures d1 == d2
  {
    ReportPathInjective("daily/", Path3(d1.year, d1.month, d1.day), Path3(d2.year, d2.month, d2.day));
    Path3Injective(d1.year, d1.month, d1.day, d2.year, d2.month, d2.day);
  }

  /** The weekly URL names the Sunday of the week: two dates share it only in the same week. */
  lemma WeeklyUrlNamesTheSunday(d1: Date, d2: Date)
    requires ValidDate(d1) && ValidDate(d2)
    requires ReportUrl("weekly", d1) == ReportUrl("weekly", d2)
    ensures WeekStart(d1) == WeekStart(d2)
  {
    var s1, s2 := WeekStart(d1), WeekStart(d2);
    ReportPathInjective("weekly/", Path3(s1.year, s1.month, s1.day), Path3(s2.year, s2.month, s2.day));
    Path3Injective(s1.year, s1.month, s1.day, s2.year, s2.month, s2.day);
  }

  /**
   * `fetchReport`'s URL: year, 1-based month and day of the report date;
   * for the weekly report those of a copy moved back by its weekday number.
   */
  method FetchReportUrl(reportType: string, reportDate: JsDate) returns (url: string)
    requires reportDate.Valid()
    ensures url == ReportUrl(reportType, reportDate.AsDate())
  {
    url := "";
    ghost var date := reportDate.AsDate();
    var y := reportDate.year;
    var m := reportDate.month + 1;
    var d := reportDate.date;
    if reportType == "daily" {
      url := ReportPath("daily/", Path3(y, m, d));
    } else if reportType == "weekly" {
      var startOfWeek := new JsDate.Copy(reportDate);
      startOfWeek.SetDate(d - reportDate.GetDay());
      assert startOfWeek.AsDate() == WeekStart(date);
      url := ReportPath("weekly/", Path3(startOfWeek.year, startOfWeek.month + 1, startOfWeek.date));
    } else {
      url := ReportPath("monthly/", Path2(y, m));
    }
  }
}
