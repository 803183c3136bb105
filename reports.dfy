/**
 * Report windows and aggregation (crud.py `get_daily_report`,
 * `get_weekly_report`, `get_monthly_report` and `_generate_report`). Worked
 * time is kept in whole seconds; the source divides by 3600 into float hours.
 */
module Reports {
  import opened Common
  import opened Calendar
  import opened Models

  /** The half-open timestamp range [lo, hi). */
  datatype Window = Window(lo: int, hi: int)

  predicate InWindow(t: int, w: Window) {
    w.lo <= t < w.hi
  }

  datatype ReportError =
    | InvalidDate          // datetime(...) raises ValueError
    | DateOverflow         // date arithmetic past 9999-12-31 raises OverflowError
    | MissingEmployee(employeeId: int)  // get_employee_by_id returned None

  /** One element of the report list; `totalSeconds` is `total_hours` times 3600. */
  datatype ReportEntry = ReportEntry(employeeId: int, name: string, role: string, totalCheckIns: nat, totalSeconds: int)

  // ----- windows -----

  /**
   * Daily window, applied to `date`: [day, day + 1 day). Computing the day
   * after 9999-12-31 raises OverflowError.
   */
  function DailyWindow(day: int): (r: Result<Window, ReportError>)
    ensures r.Failure? <==> day + 1 > MaxOrdinal
    ensures r.Failure? ==> r.error == DateOverflow
    ensures r.Success? ==> forall t :: InWindow(t, r.value) <==> DayOf(t) == day
  {
    if day + 1 > MaxOrdinal then Failure(DateOverflow)
    else
      var w := Window(DayStart(day), DayStart(day + 1));
      assert forall t :: InWindow(t, w) <==> DayOf(t) == day by {
        forall t ensures InWindow(t, w) <==> DayOf(t) == day { DayRange(t, day); }
      }
      Success(w)
  }

  /**
   * Weekly window, applied to `check_in`: seven whole days from the start
   * timestamp. An end past the last second of 9999-12-31 raises OverflowError.
   */
  function WeeklyWindow(start: int): (r: Result<Window, ReportError>)
    ensures r.Failure? <==> DayOf(start) + 7 > MaxOrdinal
    ensures r.Failure? ==> r.error == DateOverflow
    ensures r.Success? ==> forall t :: InWindow(t, r.value) <==> start <= t && DayOf(t - start) < 7
  {
    if DayOf(start) + 7 > MaxOrdinal then Failure(DateOverflow)
    else Success(Window(start, start + 7 * SecondsPerDay))
  }

  /** From a midnight, as `fromisocalendar` gives, the weekly window covers exactly seven calendar days. */
  lemma WeeklyWindowDays(n: int, t: int)
    requires n + 7 <= MaxOrdinal
    ensures WeeklyWindow(DayStart(n)).Success?
    ensures InWindow(t, WeeklyWindow(DayStart(n)).value) <==> n <= DayOf(t) < n + 7
  {
    DayRange(t, DayOf(t));
    assert DayOf(DayStart(n)) == n;
  }

  /**
   * Monthly window, applied to `check_in`: from the first of the month to
   * `(first + 31 days).replace(day=1)`. Python's datetime rejects years outside
   * 1..9999 and months outside 1..12, and cannot go past 9999-12-31.
   */
  function MonthlyWindow(year: int, month: int): Result<Window, ReportError> {
    if !(1 <= year <= 9999 && 1 <= month <= 12) then Failure(InvalidDate)
    else
      var first := Date(year, month, 1);
      var later := AddDays(first, 31);
      if later.year > 9999 then Failure(DateOverflow)
      else Success(Window(DayStart(Ordinal(first)), DayStart(Ordinal(Date(later.year, later.month, 1)))))
  }

  /** The monthly window is exactly the calendar month, December rolling into January. */
  lemma MonthlyWindowIsCalendarMonth(year: int, month: int)
    ensures MonthlyWindow(year, month).Failure?
            <==> !(1 <= year <= 9999 && 1 <= month <= 12) || (year == 9999 && month == 12)
    ensures MonthlyWindow(year, month).Success? ==>
      var w := MonthlyWindow(year, month).value;
      && w.lo == DayStart(Ordinal(Date(year, month, 1)))
      && w.hi == DayStart(Ordinal(FirstOfNextMonth(year, month)))
      && w.hi - w.lo == DaysInMonth(year, month) * SecondsPerDay
  {
    if 1 <= year <= 9999 && 1 <= month <= 12 {
      ThirtyOneDaysAfterFirst(year, month);
      NextMonthDistance(year, month);
    }
  }

  function SelectByDate(records: seq<Attendance>, w: Window): (r: seq<Attendance>)
    ensures |r| <= |records|
    ensures forall x :: x in r <==> x in records && InWindow(x.date, w)
  {
    if records == [] then []
    else
      var rest := SelectByDate(records[..|records| - 1], w);
      var last := records[|records| - 1];
      assert records == records[..|records| - 1] + [last];
      if InWindow(last.date, w) then rest + [last] else rest
  }

  function SelectByCheckIn(records: seq<Attendance>, w: Window): (r: seq<Attendance>)
    ensures |r| <= |records|
    ensures forall x :: x in r <==> x in records && InWindow(x.checkIn, w)
  {
    if records == [] then []
    else
      var rest := SelectByCheckIn(records[..|records| - 1], w);
      var last := records[|records| - 1];
      assert records == records[..|records| - 1] + [last];
      if InWindow(last.checkIn, w) then rest + [last] else rest
  }

  /** The selection keeps table order: selecting from a concatenation selects from each part in turn. */
  lemma {:induction false} SelectByDateAppend(a: seq<Attendance>, b: seq<Attendance>, w: Window)
    ensures SelectByDate(a + b, w) == SelectByDate(a, w) + SelectByDate(b, w)
    decreases |b|
  {
    if b == [] {
      assert a + b == a;
      assert SelectByDate(a, w) + [] == SelectByDate(a, w);
    } else {
      var b' := b[..|b| - 1];
      assert (a + b)[..|a + b| - 1] == a + b';
      assert (a + b)[|a + b| - 1] == b[|b| - 1];
      SelectByDateAppend(a, b', w);
    }
  }

  /** A single row is kept exactly when its `date` is in the window. */
  lemma SelectByDateOne(x: Attendance, w: Window)
    ensures SelectByDate([x], w) == if InWindow(x.date, w) then [x] else []
  {
    assert [x][..0] == [];
  }

  /** Each row dated in the window is kept as often as it occurs in the table; no other row is kept. */
  lemma {:induction false} SelectByDateCounts(records: seq<Attendance>, w: Window, x: Attendance)
    ensures multiset(SelectByDate(records, w))[x] == if InWindow(x.date, w) then multiset(records)[x] else 0
    decreases |records|
  {
    if records != [] {
      var init, last := records[..|records| - 1], records[|records| - 1];
      assert records == init + [last];
      SelectByDateCounts(init, w, x);
    }
  }

  /** The selection keeps table order: selecting from a concatenation selects from each part in turn. */
  lemma {:induction false} SelectByCheckInAppend(a: seq<Attendance>, b: seq<Attendance>, w: Window)
    ensures SelectByCheckIn(a + b, w) == SelectByCheckIn(a, w) + SelectByCheckIn(b, w)
    decreases |b|
  {
    if b == [] {
      assert a + b == a;
      assert SelectByCheckIn(a, w) + [] == SelectByCheckIn(a, w);
    } else {
      var b' := b[..|b| - 1];
      assert (a + b)[..|a + b| - 1] == a + b';
      assert (a + b)[|a + b| - 1] == b[|b| - 1];
      SelectByCheckInAppend(a, b', w);
    }
  }

  /** A single row is kept exactly when its `check_in` is in the window. */
  lemma SelectByCheckInOne(x: Attendance, w: Window)
    ensures SelectByCheckIn([x], w) == if InWindow(x.checkIn, w) then [x] else []
  {
    assert [x][..0] == [];
  }

  /** Each row checked in during the window is kept as often as it occurs in the table; no other row is kept. */
  lemma {:induction false} SelectByCheckInCounts(records: seq<Attendance>, w: Window, x: Attendance)
    ensures multiset(SelectByCheckIn(records, w))[x] == if InWindow(x.checkIn, w) then multiset(records)[x] else 0
    decreases |records|
  {
    if records != [] {
      var init, last := records[..|records| - 1], records[|records| - 1];
      assert records == init + [last];
      SelectByCheckInCounts(init, w, x);
    }
  }

  // ----- what a report contains -----

  function EmployeeIdsOf(records: seq<Attendance>): (ids: seq<int>)
    ensures |ids| == |records|
    ensures forall i :: 0 <= i < |records| ==> ids[i] == records[i].employeeId
  {
    if records == [] then []
    else EmployeeIdsOf(records[..|records| - 1]) + [records[|records| - 1].employeeId]
  }

  predicate NoDuplicates(s: seq<int>) {
    forall i, j :: 0 <= i < j < |s| ==> s[i] != s[j]
  }

  /** The distinct elements of s, each where it first appears. */
  function DistinctInOrder(s: seq<int>): (d: seq<int>)
    ensures NoDuplicates(d)
    ensures forall x :: x in d <==> x in s
  {
    if s == [] then []
    else
      var d := DistinctInOrder(s[..|s| - 1]);
      var x := s[|s| - 1];
      assert forall y :: y in s <==> y in s[..|s| - 1] || y == x;
      if x in d then d else d + [x]
  }

  /** What one row adds to its employee's worked seconds: check-out minus check-in, 0 while open. */
  function Contribution(r: Attendance): int {
    match r.checkOut
    case None => 0
    case Some(out) => out - r.checkIn
  }

  function CheckInsOf(records: seq<Attendance>, e: int): nat {
    if records == [] then 0
    else CheckInsOf(records[..|records| - 1], e) + (if records[|records| - 1].employeeId == e then 1 else 0)
  }

  function SecondsOf(records: seq<Attendance>, e: int): int {
    if records == [] then 0
    else SecondsOf(records[..|records| - 1], e)
         + (if records[|records| - 1].employeeId == e then Contribution(records[|records| - 1]) else 0)
  }

  function ClosedSeconds(records: seq<Attendance>): int {
    if records == [] then 0
    else ClosedSeconds(records[..|records| - 1]) + Contribution(records[|records| - 1])
  }

  predicate AllKnown(records: seq<Attendance>, employees: seq<Employee>) {
    forall i :: 0 <= i < |records| ==> FindEmployee(employees, records[i].employeeId).Some?
  }

  function EntryOf(records: seq<Attendance>, employees: seq<Employee>, e: int): ReportEntry
    requires FindEmployee(employees, e).Some?
  {
    var emp := FindEmployee(employees, e).value;
    ReportEntry(emp.id, emp.name, emp.role, CheckInsOf(records, e), SecondsOf(records, e))
  }

  function EntriesFor(records: seq<Attendance>, employees: seq<Employee>, d: seq<int>): (r: seq<ReportEntry>)
    requires forall x :: x in d ==> FindEmployee(employees, x).Some?
    ensures |r| == |d|
    ensures forall k :: 0 <= k < |d| ==> r[k] == EntryOf(records, employees, d[k])
  {
    if d == [] then []
    else EntriesFor(records, employees, d[..|d| - 1]) + [EntryOf(records, employees, d[|d| - 1])]
  }

  lemma KnownIds(records: seq<Attendance>, employees: seq<Employee>)
    requires AllKnown(records, employees)
    ensures forall x :: x in EmployeeIdsOf(records) ==> FindEmployee(employees, x).Some?
  {
    var ids := EmployeeIdsOf(records);
    forall x | x in ids ensures FindEmployee(employees, x).Some? {
      var i :| 0 <= i < |ids| && ids[i] == x;
      assert records[i].employeeId == x;
    }
  }

  /** The report `_generate_report` should return for rows whose employees all exist. */
  function Entries(records: seq<Attendance>, employees: seq<Employee>): seq<ReportEntry>
    requires AllKnown(records, employees)
  {
    KnownIds(records, employees);
    EntriesFor(records, employees, DistinctInOrder(EmployeeIdsOf(records)))
  }

  /** The outcome `_generate_report` should have: an error at the first row without an employee, else Entries. */
  predicate IsReportOf(r: Result<seq<ReportEntry>, ReportError>, records: seq<Attendance>, employees: seq<Employee>) {
    && (r.Success? <==> AllKnown(records, employees))
    && (r.Success? ==> r.value == Entries(records, employees))
    && (r.Failure? ==> exists i ::
          && 0 <= i < |records|
          && FindEmployee(employees, records[i].employeeId).None?
          && AllKnown(records[..i], employees)
          && r.error == MissingEmployee(records[i].employeeId))
  }

  lemma CountsOfAbsent(records: seq<Attendance>, e: int)
    requires e !in EmployeeIdsOf(records)
    ensures CheckInsOf(records, e) == 0 && SecondsOf(records, e) == 0
  {
    if records != [] {
      var init := records[..|records| - 1];
      assert EmployeeIdsOf(records) == EmployeeIdsOf(init) + [records[|records| - 1].employeeId];
      CountsOfAbsent(init, e);
    }
  }

  /**
   * `_generate_report`: one pass over the rows, a dictionary keyed by employee
   * id that remembers insertion order, one counter and one sum per employee.
   */
  method GenerateReport(records: seq<Attendance>, employees: seq<Employee>) returns (r: Result<seq<ReportEntry>, ReportError>)
    ensures IsReportOf(r, records, employees)
  {
    var order: seq<int> := [];
    var dict: map<int, ReportEntry> := map[];
    for i := 0 to |records|
      invariant AllKnown(records[..i], employees)
      invariant order == DistinctInOrder(EmployeeIdsOf(records[..i]))
      invariant dict == TallyOf(records[..i], employees)
    {
      var row := records[i];
      var employee := FindEmployee(employees, row.employeeId);
      if employee.None? {
        r := Failure(MissingEmployee(row.employeeId));
        return;
      }
      TallyNext(records, i, employees);
      OrderNext(records, i, employees);
      dict, order := CountRow(dict, order, row, employee.value);
    }
    assert records[..|records|] == records;
    TallyComplete(records, employees);
    r := Success(seq(|order|, k requires 0 <= k < |order| => dict[order[k]]));
  }

  /**
   * One turn of the loop of `_generate_report`: create the employee's entry
   * at zero if it is new (appending its id to the key order), count the row,
   * and add its worked seconds when it has a check-out.
   */
  method CountRow(dict: map<int, ReportEntry>, order: seq<int>, row: Attendance, employee: Employee)
    returns (dict': map<int, ReportEntry>, order': seq<int>)
    ensures dict' == Counted(dict, row, employee)
    ensures order' == if employee.id in dict then order else order + [employee.id]
  {
    var id := employee.id;
    var entry;
    order' := order;
    if id in dict {
      entry := dict[id];
    } else {
      entry := ReportEntry(id, employee.name, employee.role, 0, 0);
      order' := order + [id];
    }
    entry := entry.(totalCheckIns := entry.totalCheckIns + 1);
    if row.checkOut.Some? {
      entry := entry.(totalSeconds := entry.totalSeconds + (row.checkOut.value - row.checkIn));
    }
    dict' := dict[id := entry];
  }

  /** The keys of `dict` are the ids of `order`. */
  ghost predicate TallyKeys(dict: map<int, ReportEntry>, order: seq<int>) {
    forall e :: e in dict <==> e in order
  }

  /** `dict` holds, for each of its keys, the entry the rows so far give that employee. */
  ghost predicate TallyValues(dict: map<int, ReportEntry>, rows: seq<Attendance>, employees: seq<Employee>) {
    forall e :: e in dict ==> FindEmployee(employees, e).Some? && dict[e] == EntryOf(rows, employees, e)
  }

  /** The dictionary after one row of employee `emp` is counted. */
  function Counted(dict: map<int, ReportEntry>, row: Attendance, emp: Employee): map<int, ReportEntry> {
    dict[emp.id := CountedEntry(dict, row, emp)]
  }

  /** The entry of `emp` once `row` is counted: one more check-in, and the row's worked seconds. */
  function CountedEntry(dict: map<int, ReportEntry>, row: Attendance, emp: Employee): ReportEntry {
    var before := if emp.id in dict then dict[emp.id] else ReportEntry(emp.id, emp.name, emp.role, 0, 0);
    before.(totalCheckIns := before.totalCheckIns + 1, totalSeconds := before.totalSeconds + Contribution(row))
  }

  /** Counting a row touches only its employee's entry, which starts from zero when new. */
  lemma CountedTouchesOneEntry(dict: map<int, ReportEntry>, row: Attendance, emp: Employee)
    ensures var d := Counted(dict, row, emp);
      && (forall e :: e in d <==> e in dict || e == emp.id)
      && (forall e :: e in dict && e != emp.id ==> d[e] == dict[e])
      && var before := if emp.id in dict then dict[emp.id] else ReportEntry(emp.id, emp.name, emp.role, 0, 0);
         d[emp.id] == before.(totalCheckIns := before.totalCheckIns + 1, totalSeconds := before.totalSeconds + Contribution(row))
  {
  }

  lemma AllKnownPrefix(rows: seq<Attendance>, employees: seq<Employee>, n: nat)
    requires AllKnown(rows, employees) && n <= |rows|
    ensures AllKnown(rows[..n], employees)
  {
    assert forall i :: 0 <= i < n ==> rows[..n][i] == rows[i];
  }

  /** The dictionary `_generate_report` has built after the rows `rows`. */
  function TallyOf(rows: seq<Attendance>, employees: seq<Employee>): map<int, ReportEntry>
    requires AllKnown(rows, employees)
  {
    if rows == [] then map[]
    else
      var last := rows[|rows| - 1];
      AllKnownPrefix(rows, employees, |rows| - 1);
      Counted(TallyOf(rows[..|rows| - 1], employees), last, FindEmployee(employees, last.employeeId).value)
  }

  /** One turn of the loop of GenerateReport: the dictionary after row i. */
  lemma TallyNext(records: seq<Attendance>, i: nat, employees: seq<Employee>)
    requires i < |records|
    requires AllKnown(records[..i], employees)
    requires FindEmployee(employees, records[i].employeeId).Some?
    ensures AllKnown(records[..i + 1], employees)
    ensures TallyOf(records[..i + 1], employees)
            == Counted(TallyOf(records[..i], employees), records[i], FindEmployee(employees, records[i].employeeId).value)
  {
    assert records[..i + 1][..i] == records[..i];
    assert forall k :: 0 <= k < i + 1 ==> records[..i + 1][k] == (if k < i then records[..i][k] else records[i]);
  }

  /** One turn of the loop of GenerateReport: the key order after row i. */
  lemma OrderNext(records: seq<Attendance>, i: nat, employees: seq<Employee>)
    requires i < |records|
    requires AllKnown(records[..i], employees)
    requires FindEmployee(employees, records[i].employeeId).Some?
    ensures var emp := FindEmployee(employees, records[i].employeeId).value;
      var order := DistinctInOrder(EmployeeIdsOf(records[..i]));
      && (emp.id in TallyOf(records[..i], employees) <==> emp.id in order)
      && DistinctInOrder(EmployeeIdsOf(records[..i + 1])) == (if emp.id in order then order else order + [emp.id])
  {
    assert records[..i + 1] == records[..i] + [records[i]];
    RowIds(records[..i], records[i]);
    TallyOfKeys(records[..i], employees);
  }

  /** The dictionary's keys are the distinct employees of the rows. */
  lemma {:induction false} TallyOfKeys(rows: seq<Attendance>, employees: seq<Employee>)
    requires AllKnown(rows, employees)
    ensures TallyKeys(TallyOf(rows, employees), DistinctInOrder(EmployeeIdsOf(rows)))
    decreases |rows|
  {
    if rows != [] {
      var init, row := rows[..|rows| - 1], rows[|rows| - 1];
      assert rows == init + [row];
      AllKnownPrefix(rows, employees, |rows| - 1);
      TallyOfKeys(init, employees);
      RowIds(init, row);
      CountedTouchesOneEntry(TallyOf(init, employees), row, FindEmployee(employees, row.employeeId).value);
    }
  }

  /** The dictionary holds each employee's entry for the rows. */
  lemma {:induction false} TallyOfValues(rows: seq<Attendance>, employees: seq<Employee>)
    requires AllKnown(rows, employees)
    ensures TallyValues(TallyOf(rows, employees), rows, employees)
    decreases |rows|
  {
    if rows != [] {
      var init, row := rows[..|rows| - 1], rows[|rows| - 1];
      assert rows == init + [row];
      AllKnownPrefix(rows, employees, |rows| - 1);
      TallyOfValues(init, employees);
      TallyOfKeys(init, employees);
      ValuesStep(TallyOf(init, employees), init, row, employees, FindEmployee(employees, row.employeeId).value);
    }
  }

  lemma ValuesStep(dict: map<int, ReportEntry>, rows: seq<Attendance>, row: Attendance,
                   employees: seq<Employee>, emp: Employee)
    requires TallyKeys(dict, DistinctInOrder(EmployeeIdsOf(rows)))
    requires TallyValues(dict, rows, employees)
    requires FindEmployee(employees, row.employeeId) == Some(emp)
    ensures TallyValues(Counted(dict, row, emp), rows + [row], employees)
  {
    RowSums(rows, row);
    var id := emp.id;
    var d1 := Counted(dict, row, emp);
    CountedTouchesOneEntry(dict, row, emp);
    if id !in dict {
      CountsOfAbsent(rows, id);
    }
    assert d1[id] == EntryOf(rows + [row], employees, id);
    forall e | e in d1 ensures FindEmployee(employees, e).Some? && d1[e] == EntryOf(rows + [row], employees, e) {
      if e != id {
        assert d1[e] == dict[e];
      }
    }
  }

  /** At the end of the loop the dictionary, read in insertion order, is the report. */
  lemma TallyComplete(records: seq<Attendance>, employees: seq<Employee>)
    requires AllKnown(records, employees)
    ensures var dict := TallyOf(records, employees);
      var order := DistinctInOrder(EmployeeIdsOf(records));
      && (forall k :: 0 <= k < |order| ==> order[k] in dict)
      && |Entries(records, employees)| == |order|
      && (forall k :: 0 <= k < |order| ==> dict[order[k]] == Entries(records, employees)[k])
  {
    TallyOfKeys(records, employees);
    TallyOfValues(records, employees);
  }

  /** What appending one row does to the id sequence and to its first-appearance order. */
  lemma RowIds(prefix: seq<Attendance>, row: Attendance)
    ensures EmployeeIdsOf(prefix + [row]) == EmployeeIdsOf(prefix) + [row.employeeId]
    ensures var d := DistinctInOrder(EmployeeIdsOf(prefix));
      DistinctInOrder(EmployeeIdsOf(prefix + [row])) == if row.employeeId in d then d else d + [row.employeeId]
  {
    assert (prefix + [row])[..|prefix|] == prefix;
    var ids := EmployeeIdsOf(prefix);
    assert (ids + [row.employeeId])[..|ids|] == ids;
  }

  /** What appending one row does to the per-employee sums. */
  lemma RowSums(prefix: seq<Attendance>, row: Attendance)
    ensures forall e :: CheckInsOf(prefix + [row], e) == CheckInsOf(prefix, e) + (if row.employeeId == e then 1 else 0)
    ensures forall e :: SecondsOf(prefix + [row], e) == SecondsOf(prefix, e) + (if row.employeeId == e then Contribution(row) else 0)
  {
    assert (prefix + [row])[..|prefix|] == prefix;
  }

  // ----- the three reports -----

  method DailyReport(records: seq<Attendance>, employees: seq<Employee>, day: int)
    returns (r: Result<seq<ReportEntry>, ReportError>)
    ensures day + 1 > MaxOrdinal ==> r == Failure(DateOverflow)
    ensures day + 1 <= MaxOrdinal ==>
      IsReportOf(r, SelectByDate(records, DailyWindow(day).value), employees)
  {
    var w := DailyWindow(day);
    if w.Failure? {
      return Failure(w.error);
    }
    r := GenerateReport(SelectByDate(records, w.value), employees);
  }

  method WeeklyReport(records: seq<Attendance>, employees: seq<Employee>, start: int)
    returns (r: Result<seq<ReportEntry>, ReportError>)
    ensures DayOf(start) + 7 > MaxOrdinal ==> r == Failure(DateOverflow)
    ensures DayOf(start) + 7 <= MaxOrdinal ==>
      IsReportOf(r, SelectByCheckIn(records, WeeklyWindow(start).value), employees)
  {
    var w := WeeklyWindow(start);
    if w.Failure? {
      return Failure(w.error);
    }
    r := GenerateReport(SelectByCheckIn(records, w.value), employees);
  }

  method MonthlyReport(records: seq<Attendance>, employees: seq<Employee>, year: int, month: int)
    returns (r: Result<seq<ReportEntry>, ReportError>)
    ensures MonthlyWindow(year, month).Failure? ==> r == Failure(MonthlyWindow(year, month).error)
    ensures MonthlyWindow(year, month).Success? ==>
      IsReportOf(r, SelectByCheckIn(records, MonthlyWindow(year, month).value), employees)
  {
    var w := MonthlyWindow(year, month);
    if w.Failure? {
      return Failure(w.error);
    }
    r := GenerateReport(SelectByCheckIn(records, w.value), employees);
  }

  // ----- properties of a report -----

  function FirstIndex(s: seq<int>, x: int): (i: nat)
    requires x in s
    ensures i < |s| && s[i] == x && forall j :: 0 <= j < i ==> s[j] != x
  {
    if s[0] == x then 0 else 1 + FirstIndex(s[1..], x)
  }

  lemma FirstIndexExtend(s: seq<int>, y: int, x: int)
    requires x in s
    ensures FirstIndex(s + [y], x) == FirstIndex(s, x)
  {
    var i := FirstIndex(s, x);
    assert (s + [y])[i] == x;
  }

  /** The elements of d, all of them in s, come in the order of their first appearance in s. */
  predicate InFirstAppearanceOrder(s: seq<int>, d: seq<int>)
    requires forall x :: x in d ==> x in s
  {
    forall k, l :: 0 <= k < l < |d| ==> FirstIndex(s, d[k]) < FirstIndex(s, d[l])
  }

  lemma {:induction false} DistinctInFirstAppearanceOrder(s: seq<int>)
    ensures InFirstAppearanceOrder(s, DistinctInOrder(s))
    decreases |s|
  {
    if s != [] {
      var init, x := s[..|s| - 1], s[|s| - 1];
      assert s == init + [x];
      DistinctInFirstAppearanceOrder(init);
      var d := DistinctInOrder(init);
      var d' := DistinctInOrder(s);
      assert d' == if x in d then d else d + [x];
      forall k, l | 0 <= k < l < |d'| ensures FirstIndex(s, d'[k]) < FirstIndex(s, d'[l]) {
        assert d'[k] == d[k] && d[k] in d;
        FirstIndexExtend(init, x, d[k]);
        if l < |d| {
          assert d'[l] == d[l] && d[l] in d;
          FirstIndexExtend(init, x, d[l]);
        } else {
          assert x !in init;
          assert FirstIndex(s, x) == |init|;
        }
      }
    }
  }

  /** Entry k of the report is the k-th distinct employee's, with that employee's totals. */
  lemma EntriesAreTotals(records: seq<Attendance>, employees: seq<Employee>)
    requires AllKnown(records, employees)
    ensures var entries := Entries(records, employees);
      var d := DistinctInOrder(EmployeeIdsOf(records));
      && |entries| == |d|
      && (forall k :: 0 <= k < |d| ==>
            && entries[k].employeeId == d[k]
            && entries[k].totalCheckIns == CheckInsOf(records, d[k])
            && entries[k].totalSeconds == SecondsOf(records, d[k]))
  {
    KnownIds(records, employees);
  }

  /** The employees reported are exactly those with rows, each once. */
  lemma EntriesCoverRows(records: seq<Attendance>, employees: seq<Employee>)
    requires AllKnown(records, employees)
    ensures var entries := Entries(records, employees);
      && (forall k, l :: 0 <= k < l < |entries| ==> entries[k].employeeId != entries[l].employeeId)
      && (forall e :: e in EmployeeIdsOf(records) <==> (exists k :: 0 <= k < |entries| && entries[k].employeeId == e))
  {
    EntriesAreTotals(records, employees);
    var entries := Entries(records, employees);
    var d := DistinctInOrder(EmployeeIdsOf(records));
    forall e | e in EmployeeIdsOf(records) ensures exists k :: 0 <= k < |entries| && entries[k].employeeId == e {
      assert e in d;
      var k :| 0 <= k < |d| && d[k] == e;
      assert entries[k].employeeId == e;
    }
  }

  /** One entry per distinct employee of the rows, in first-appearance order, each with that employee's totals. */
  lemma ReportOneEntryPerEmployee(records: seq<Attendance>, employees: seq<Employee>)
    requires AllKnown(records, employees)
    ensures var entries := Entries(records, employees);
      var d := DistinctInOrder(EmployeeIdsOf(records));
      && |entries| == |d|
      && (forall k :: 0 <= k < |d| ==>
            && entries[k].employeeId == d[k]
            && entries[k].totalCheckIns == CheckInsOf(records, d[k])
            && entries[k].totalSeconds == SecondsOf(records, d[k]))
      && (forall k, l :: 0 <= k < l < |entries| ==> entries[k].employeeId != entries[l].employeeId)
      && (forall e :: e in EmployeeIdsOf(records) <==> (exists k :: 0 <= k < |entries| && entries[k].employeeId == e))
      && InFirstAppearanceOrder(EmployeeIdsOf(records), d)
  {
    EntriesAreTotals(records, employees);
    EntriesCoverRows(records, employees);
    DistinctInFirstAppearanceOrder(EmployeeIdsOf(records));
  }

  function CheckInsOver(records: seq<Attendance>, d: seq<int>): int {
    if d == [] then 0 else CheckInsOver(records, d[..|d| - 1]) + CheckInsOf(records, d[|d| - 1])
  }

  function SecondsOver(records: seq<Attendance>, d: seq<int>): int {
    if d == [] then 0 else SecondsOver(records, d[..|d| - 1]) + SecondsOf(records, d[|d| - 1])
  }

  function SumCheckIns(entries: seq<ReportEntry>): int {
    if entries == [] then 0 else SumCheckIns(entries[..|entries| - 1]) + entries[|entries| - 1].totalCheckIns
  }

  function SumSeconds(entries: seq<ReportEntry>): int {
    if entries == [] then 0 else SumSeconds(entries[..|entries| - 1]) + entries[|entries| - 1].totalSeconds
  }

  lemma {:induction false} AddRowToCheckIns(records: seq<Attendance>, row: Attendance, d: seq<int>)
    requires NoDuplicates(d)
    ensures CheckInsOver(records + [row], d) == CheckInsOver(records, d) + (if row.employeeId in d then 1 else 0)
    decreases |d|
  {
    if d != [] {
      var init := d[..|d| - 1];
      assert forall y :: y in d <==> y in init || y == d[|d| - 1];
      AddRowToCheckIns(records, row, init);
      assert (records + [row])[..|records|] == records;
    }
  }

  lemma {:induction false} AddRowToSeconds(records: seq<Attendance>, row: Attendance, d: seq<int>)
    requires NoDuplicates(d)
    ensures SecondsOver(records + [row], d) == SecondsOver(records, d) + (if row.employeeId in d then Contribution(row) else 0)
    decreases |d|
  {
    if d != [] {
      var init := d[..|d| - 1];
      assert forall y :: y in d <==> y in init || y == d[|d| - 1];
      AddRowToSeconds(records, row, init);
      assert (records + [row])[..|records|] == records;
    }
  }

  /** Over the distinct employees, the check-in counts add up to the number of rows. */
  lemma {:induction false} CheckInsOverDistinct(records: seq<Attendance>)
    ensures CheckInsOver(records, DistinctInOrder(EmployeeIdsOf(records))) == |records|
    decreases |records|
  {
    if records != [] {
      var init, row := records[..|records| - 1], records[|records| - 1];
      assert records == init + [row];
      CheckInsOverDistinct(init);
      var d := DistinctInOrder(EmployeeIdsOf(init));
      RowIds(init, row);
      AddRowToCheckIns(init, row, d);
      if row.employeeId !in d {
        CountsOfAbsent(init, row.employeeId);
      }
    }
  }

  /** Over the distinct employees, the seconds add up to those of all closed rows. */
  lemma {:induction false} SecondsOverDistinct(records: seq<Attendance>)
    ensures SecondsOver(records, DistinctInOrder(EmployeeIdsOf(records))) == ClosedSeconds(records)
    decreases |records|
  {
    if records != [] {
      var init, row := records[..|records| - 1], records[|records| - 1];
      assert records == init + [row];
      SecondsOverDistinct(init);
      var d := DistinctInOrder(EmployeeIdsOf(init));
      RowIds(init, row);
      if row.employeeId !in d {
        CountsOfAbsent(init, row.employeeId);
      }
      SecondsStep(init, row, d);
    }
  }

  lemma SecondsStep(init: seq<Attendance>, row: Attendance, d: seq<int>)
    requires NoDuplicates(d)
    requires SecondsOver(init, d) == ClosedSeconds(init)
    requires row.employeeId !in d ==> SecondsOf(init, row.employeeId) == 0
    ensures SecondsOver(init + [row], if row.employeeId in d then d else d + [row.employeeId]) == ClosedSeconds(init + [row])
  {
    var records := init + [row];
    assert records[..|init|] == init;
    AddRowToSeconds(init, row, d);
    assert ClosedSeconds(records) == ClosedSeconds(init) + Contribution(row);
    if row.employeeId !in d {
      var d' := d + [row.employeeId];
      assert d'[..|d|] == d;
      assert SecondsOf(records, row.employeeId) == SecondsOf(init, row.employeeId) + Contribution(row);
    }
  }

  lemma {:induction false} EntriesTotals(records: seq<Attendance>, employees: seq<Employee>, d: seq<int>)
    requires forall x :: x in d ==> FindEmployee(employees, x).Some?
    ensures SumCheckIns(EntriesFor(records, employees, d)) == CheckInsOver(records, d)
    ensures SumSeconds(EntriesFor(records, employees, d)) == SecondsOver(records, d)
    decreases |d|
  {
    if d != [] {
      var init := d[..|d| - 1];
      EntriesTotals(records, employees, init);
      var es := EntriesFor(records, employees, d);
      assert es[..|es| - 1] == EntriesFor(records, employees, init);
    }
  }

  /**
   * The check-in counts of a report add up to the number of rows, and its
   * seconds add up to check-out minus check-in over the closed rows; open rows
   * count once and add no time, and nothing is clamped at zero.
   */
  lemma ReportTotals(records: seq<Attendance>, employees: seq<Employee>)
    requires AllKnown(records, employees)
    ensures SumCheckIns(Entries(records, employees)) == |records|
    ensures SumSeconds(Entries(records, employees)) == ClosedSeconds(records)
  {
    KnownIds(records, employees);
    var d := DistinctInOrder(EmployeeIdsOf(records));
    EntriesTotals(records, employees, d);
    CheckInsOverDistinct(records);
    SecondsOverDistinct(records);
  }

  /** An open row adds one check-in and no time to its employee. */
  lemma OpenRowCountsButAddsNoTime(records: seq<Attendance>, row: Attendance)
    requires row.checkOut.None?
    ensures CheckInsOf(records + [row], row.employeeId) == CheckInsOf(records, row.employeeId) + 1
    ensures SecondsOf(records + [row], row.employeeId) == SecondsOf(records, row.employeeId)
  {
    assert (records + [row])[..|records|] == records;
  }
}
