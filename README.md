# Attendance event pipeline — a Dafny model

This project models the attendance event pipeline of a face-recognition
attendance tracker. It covers:

- the FastAPI endpoints that check employees in, check them out, edit and
  delete attendance rows, and serve reports (`main.py`);
- the database operations behind them (`crud.py`);
- the first-match selection over face comparisons
  (`face_recognition_service.py`);
- the live check-in panel, which filters repeated recognitions and logs
  them (`frontend/src/components/CheckIn.tsx`);
- the report page's choice of report URL
  (`frontend/src/components/DailyReport.tsx`).

## Modules

| module | file | what it holds |
|---|---|---|
| `Common` | `common.dfy` | `Option` and `Result` |
| `Decimal` | `decimal.dfy` | decimal spelling of integers, as JavaScript template literals write them, and the lemma that a spelling can be read back |
| `Calendar` | `calendar.dfy` | the proleptic Gregorian calendar shared by Python `datetime` and JavaScript `Date`: day numbers (Python's `toordinal`), weekdays, day-of-month roll-over (`setDate`, `timedelta`) |
| `Models` | `models.dfy` | the `attendance` and `employees` rows, and `get_employee_by_id` |
| `AttendanceRules` | `attendance_rules.dfy` | what each `crud.py` operation does to the table, as functions of the old rows, plus the lemmas about them |
| `AttendanceStore` | `attendance_store.dfy` | the table as a class whose methods change it in place; each method is proved equal to its `AttendanceRules` function |
| `Reports` | `reports.dfy` | report windows, the `_generate_report` loop, and what a report contains |
| `FaceMatching` | `face_matching.dfy` | the double loop of `batch_verify_faces` |
| `Api` | `api.dfy` | the endpoints: replies, HTTP status codes and messages |
| `CheckInPanel` | `check_in_panel.dfy` | the check-in component as a class holding `checkInLog`, `processedIds` and `isChecking` |
| `ReportView` | `report_view.dfy` | `fetchReport`'s URL, over a `JsDate` class with `setDate` |

## Modelling conventions

- Timestamps are whole seconds.
- Day `n` is the Python ordinal: 0001-01-01 is day 1, a Monday. The day
  starts at second `n * 86400`.
- The `date` column is a DateTime. `create_attendance` stores the midnight
  of the current day in it.
- A new row's id is one more than the last row's id, or 1 on an empty
  table. The store keeps ids strictly increasing in table order.
- Worked time is summed in seconds. `total_hours` is that sum divided by
  3600.

## Where the code and the design description differ

Where the two disagree, the model follows the code:

- **Check-out does not fail on a closed row.** `update_check_out` returns an
  already closed row unchanged; it does not fail with an "already closed"
  error. Nothing compares `now` with the check-in time, so the model has no
  ordering failure, and a report's worked seconds can be negative.
- **The dedup set lives as long as the component.** The check-in panel
  keeps its set of announced keys for the component's whole lifetime.
  Stopping and restarting live check-in does not reset it, because
  `processedIds` is a ref.
- **Report windows are half-open.** A report covers `[start, end)`, not a
  closed range. The daily report filters on `date`; the weekly and monthly
  reports filter on `check_in`.
- **The familiar-face log line ignores the server's message.** A response
  with a truthy id is always logged as a successful check-in, even when the
  server said "You have already attended today".
- **The frontend's weekly URL does not match the weekly route.** The page
  requests `/reports/weekly/Y/M/D`, naming the Sunday of the week. The
  backend's route is `/reports/weekly/{year}/{week}`, with an ISO week
  starting on Monday. The model gives both sides as written and does not
  model routing.
- **Nothing in the store enforces one row per employee per day.** The
  design asks for that rule to hold even under concurrent check-ins, through
  a unique constraint or a per-key lock. The `(employee_id, date)` index is
  a plain, non-unique index (models.py:28), and `create_attendance` tests
  and then inserts with no lock (crud.py:70-77). The model proves the rule
  for one call at a time only (see "## Left out").
- **Live check-in captures may overlap, and late responses are kept.** The
  design wants each capture to finish before the next tick, and a result
  that arrives after Stop to be discarded. The component's 3-second
  `setInterval` does not wait for the previous request, and a response
  that arrives after Stop is still logged (frontend/src/components/CheckIn.tsx:13-53).

## Model

| member | source | states |
|---|---|---|
| Models.FindEmployee | crud.py:49-50 | the employee returned is in the table and has the id; None exactly when no row has the id |
| AttendanceRules.FindIndex | crud.py:88-89 | the index of the first row with the id; None exactly when no row has it |
| AttendanceRules.GetAttendanceById | crud.py:88-89 | the row returned is in the table and has the id; None exactly when no row has it |
| AttendanceRules.HasAttendedToday | crud.py:55-61 | definition: some row of the employee, open or closed, has its `date` in today's half-open day window |
| AttendanceRules.NewAttendance | crud.py:73-74 | the inserted row is the employee's, dated on today, open, and its id is above every id of an id-increasing table |
| AttendanceRules.CheckInStep | crud.py:68-76 | definition of one iteration: a seen id is skipped; an id with a row today gets "You have already attended today"; any other id gets a new row, joins the seen set and gets "Check-in successful" |
| AttendanceRules.CheckInAll | crud.py:63-76 | definition: CheckInStep folded over the ids in order from an empty seen set; its meaning is stated by the lemmas below |
| AttendanceRules.HasAttendedAppend | crud.py:55-61 | after a row is appended, an employee has attended today exactly when it had before, or the new row is theirs and dated today |
| AttendanceRules.CheckInAllShape | crud.py:63-86 | old rows stay in place; one open row dated today with check-in `now` is added per distinct id that had no row today; the number added equals the number of "Check-in successful" results; the results are the reference sequence ExpectedResults |
| AttendanceRules.CheckInAllSeen | crud.py:63-76 | the seen set holds exactly the listed ids that had no row today, and after the loop an employee has a row today exactly when it had one before or was seen |
| AttendanceRules.CheckInAllRows | crud.py:67-76 | the old rows are a prefix of the new table, and each added row is an open row dated today, checked in at `now`, for a seen id, no two for the same employee |
| AttendanceRules.CheckInAllCounts | crud.py:67-76 | rows added, ids seen and "Check-in successful" results are equally many |
| AttendanceRules.CheckInAllResults | crud.py:63-86 | the loop returns exactly the reference results ExpectedResults |
| AttendanceRules.EveryRecognisedEmployeeAttended | crud.py:63-76 | after the call every recognised id has a row dated today |
| AttendanceRules.CheckInLeavesOthersAlone | crud.py:63-76 | existing rows are unchanged, and every added row is for a recognised id and dated today |
| AttendanceRules.CheckInKeepsOneRecordPerEmployeeDay | crud.py:63-76 | if no employee has two rows on one day before the call, none has after it |
| AttendanceRules.ExpectedResultsPerEmployee | crud.py:67-76 | per employee: one "You have already attended today" result per occurrence of the id if they had a row today, otherwise exactly one "Check-in successful" result if the id occurs |
| AttendanceRules.AlreadyAttendedCount | crud.py:67-71 | an employee with a row today gets one "You have already attended today" per occurrence of the id, any other employee none |
| AttendanceRules.SuccessCount | crud.py:67-76 | an employee without a row today gets exactly one "Check-in successful" if listed at all, any other employee none |
| AttendanceRules.ExpectedResultsPrefix | crud.py:67-76 | the results for a longer id list extend the results for its prefix |
| AttendanceRules.NewRowsMatchSuccesses | crud.py:70-76 | the table grows by exactly the number of "Check-in successful" results |
| AttendanceRules.NewAttendanceKeepsIds | crud.py:73-74 | appending a new row keeps ids strictly increasing |
| AttendanceRules.CheckOut | crud.py:110-116 | no row is returned exactly when no row has the id; the table keeps its length |
| AttendanceRules.CheckOutFrame | crud.py:110-116 | only the named row changes, and only its check-out: set to `now` if it was open, kept if it was closed; that row is returned |
| AttendanceRules.CheckOutTwiceIsNoOp | crud.py:112 | a second check-out of a row changes nothing and returns the first check-out |
| AttendanceRules.CheckOutKeepsAttendance | crud.py:55-61 | checking out does not change whether an employee has attended a day |
| AttendanceRules.DeleteRecord | crud.py:102-108 | reports true exactly when a row had the id |
| AttendanceRules.DeleteRemovesExactlyOne | crud.py:102-108 | after a delete no row has the id, every other row is still there, ids stay increasing and the table shrinks by one exactly when a row was found |
| AttendanceRules.UpdateRecord | crud.py:91-100 | None exactly when no row has the id; otherwise the returned row is the payload with the row's own id |
| AttendanceRules.UpdateFrame | crud.py:91-100 | only the named row changes, all ids are kept, and the stored row is the one returned |
| AttendanceStore.Store.CreateAttendance | crud.py:63-86 | the loop with its seen-set leaves the table and results that CheckInAll gives; ids stay increasing |
| AttendanceStore.Store.UpdateCheckOut | crud.py:110-116 | the new table and the result are those of CheckOut |
| AttendanceStore.Store.UpdateAttendance | crud.py:91-100 | the new table and the result are those of UpdateRecord |
| AttendanceStore.Store.DeleteAttendance | crud.py:102-108 | the new table and the flag are those of DeleteRecord |
| Reports.DailyWindow | crud.py:118-122 | fails with an overflow exactly when the day after `date` is past 9999-12-31; otherwise a timestamp is in the window exactly when it falls on that day |
| Reports.WeeklyWindow | crud.py:125-127 | fails with an overflow exactly when the end, seven days on, is past 9999-12-31; otherwise a timestamp is in the window exactly when it is at or after the start and less than seven whole days later |
| Reports.WeeklyWindowDays | crud.py:125-127 | from a midnight at least seven days before the end of 9999, the window holds exactly the timestamps of that day and the six days after it |
| Reports.MonthlyWindow | crud.py:130-132 | definition: an invalid year or month, or a first-plus-31-days past year 9999, fails; otherwise from the first of the month to the first of the month 31 days later; its meaning is MonthlyWindowIsCalendarMonth |
| Reports.MonthlyWindowIsCalendarMonth | crud.py:130-133 | fails exactly for an invalid year or month, or December 9999 (overflow); otherwise it runs from the first of the month to the first of the next month, one month long |
| Reports.SelectByDate | crud.py:119-122 | the rows kept are the rows whose `date` is in the window |
| Reports.SelectByDateAppend | crud.py:119-122 | the selection keeps table order: selecting from a concatenation selects from each part in turn |
| Reports.SelectByDateOne | crud.py:119-122 | a single row is kept exactly when its `date` is in the window |
| Reports.SelectByDateCounts | crud.py:119-122 | each row dated in the window is kept exactly as often as it occurs in the table, and no other row is kept |
| Reports.SelectByCheckIn | crud.py:126-127 | the rows kept are the rows whose `check_in` is in the window |
| Reports.SelectByCheckInAppend | crud.py:126-127 | the selection keeps table order: selecting from a concatenation selects from each part in turn |
| Reports.SelectByCheckInOne | crud.py:126-127 | a single row is kept exactly when its `check_in` is in the window |
| Reports.SelectByCheckInCounts | crud.py:126-127 | each row checked in during the window is kept exactly as often as it occurs in the table, and no other row is kept |
| Reports.GenerateReport | crud.py:136-152 | the dictionary loop gives an error at the first row whose employee is missing, and otherwise Entries: one entry per distinct employee in first-appearance order, with that employee's count and seconds |
| Reports.CountRow | crud.py:140-151 | one loop step gives the dictionary Counted of the row, and appends the employee id to the key order exactly when it was not yet a key |
| Reports.DistinctInFirstAppearanceOrder | crud.py:140-147 | the entry order is the order in which employees first appear in the rows |
| Reports.ReportOneEntryPerEmployee | crud.py:136-152 | one entry per distinct employee of the rows; distinct ids; each entry has the employee's id, check-in count and closed seconds; the employees reported are exactly those with rows |
| Reports.EntriesAreTotals | crud.py:136-152 | entry k is the k-th distinct employee of the rows, with that employee's check-in count and closed seconds |
| Reports.EntriesCoverRows | crud.py:136-152 | entry ids are distinct and are exactly the employees that have rows |
| Reports.ReportTotals | crud.py:148-151 | the check-in counts sum to the number of rows, and the seconds sum to the worked seconds of all closed rows |
| Reports.OpenRowCountsButAddsNoTime | crud.py:148-151 | an open row adds one check-in and no time |
| Reports.DailyReport | crud.py:118-123 | an overflow failure for 9999-12-31 (and any later day); otherwise the report of the rows whose `date` falls on the day |
| Reports.WeeklyReport | crud.py:125-128 | an overflow failure when the start is within seven days of the end of 9999; otherwise the report of the rows checked in within seven days of the start |
| Reports.MonthlyReport | crud.py:130-134 | the window's error when the month is invalid or overflows, otherwise the report of the rows checked in during the month |
| FaceMatching.FirstMatchOf | face_recognition_service.py:29-36 | the result is the first matching index, or (-1, False) when no flag is set |
| FaceMatching.FirstMatchUnique | face_recognition_service.py:29-36 | only one result fits a face's flags |
| FaceMatching.FirstMatchIndexRange | face_recognition_service.py:29-36 | a face matches exactly when some flag is set; the index is then a stored position, else -1 |
| FaceMatching.BatchVerifyFaces | face_recognition_service.py:13-38 | no detected face is the error; otherwise one result per face, in order, each that face's first match |
| Api.Enrolled | main.py:95 | exactly the employees with a non-empty embedding, none added |
| Api.EnrolledAppend | main.py:95 | the filter keeps table order: the enrolled employees of a concatenation are those of the first part followed by those of the second |
| Api.MatchedIdsAsWritten | main.py:98 | main.py:98 as written: one id per matched face, each some employee's id |
| Api.MatchedIds | main.py:98 | one id per matched face, each the id of an employee with an embedding |
| Api.MatchedIdsFollowFaces | main.py:98 | the k-th matched face gives the k-th id: that of the enrolled employee at the face's index |
| Api.NoIdsIffNoMatch | main.py:98-101 | no id is produced exactly when no face matched |
| Api.AsWrittenAgreesWhenAllEnrolled | main.py:95-98 | when every employee has an embedding, the as-written lookup agrees with the corrected one |
| Api.AsWrittenChecksInTheWrongEmployee | main.py:95-98 | a two-employee table in which the as-written lookup checks in the employee without an embedding |
| Api.FirstMatchIndicesInRange | main.py:95-96 | the first-match indices always point into the embeddings sent |
| Api.ItemsCounts | main.py:104 | the reply items repeat the results one for one: per employee and message, there are as many items as results |
| Api.ItemsPerEmployee | main.py:104 | in the reply to a check-in, an employee with a row today gets one "You have already attended today" item per occurrence of the id, any other listed employee exactly one "Check-in successful" item |
| Api.CheckIn | main.py:88-104 | a frame with no faces is a 500 and nothing changes; no match gives the single "No employees recognized in the image" item and nothing changes; otherwise the table and reply are those of CheckInAll over the ids of the corrected lookup MatchedIds, not the as-written line 98 (the two agree when every employee is enrolled, Api.AsWrittenAgreesWhenAllEnrolled) |
| Api.GetAttendance | main.py:110-115 | 404 "Attendance not found" exactly when no row has the id; otherwise the row with the id |
| Api.CheckOutEndpoint | main.py:130-135 | 404 "Attendance record not found" exactly when no row has the id; a closed row comes back as it was; the table is that of CheckOut |
| Api.UpdateEndpoint | main.py:117-122 | 404 exactly when no row has the id; the table and body are those of UpdateRecord |
| Api.DeleteEndpoint | main.py:124-128 | 404 exactly when no row had the id, otherwise "Attendance deleted"; the table is that of DeleteRecord |
| Api.ReportReply | main.py:138-150 | a report is a 200 with its entries exactly when it succeeded; any report failure is an uncaught exception, a 500 |
| Api.DailyReportEndpoint | main.py:138-141 | a date that is not a real date in years 1..9999, or 9999-12-31 (whose next day overflows), is a 500; otherwise the daily report of that day |
| Api.WeeklyReportEndpoint | main.py:143-146 | a 500 when the start is within seven days of the end of 9999; otherwise the weekly report from the start timestamp |
| Api.MonthlyReportEndpoint | main.py:148-150 | a 500 when the monthly window fails, otherwise the monthly report |
| CheckInPanel.Key | frontend/src/components/CheckIn.tsx:32 | definition: the employee id, a dash and the day string; KeyInjective states what it distinguishes |
| CheckInPanel.KeyInjective | frontend/src/components/CheckIn.tsx:32 | two dedup keys are equal only for the same employee and the same day |
| CheckInPanel.FilterResponses | frontend/src/components/CheckIn.tsx:29-38 | the key set only grows, and the responses kept come from the input and are no more than it |
| CheckInPanel.FilterAppend | frontend/src/components/CheckIn.tsx:29-38 | responses keep their order: filtering a concatenation keeps what the first part keeps, then what the second part keeps given the keys the first part left |
| CheckInPanel.FilterAddsSuccessKeys | frontend/src/components/CheckIn.tsx:31-36 | the key set grows by exactly the keys of the success responses |
| CheckInPanel.FilterCounts | frontend/src/components/CheckIn.tsx:29-38 | every other response passes as many times as it occurs; a success response passes once if its key was new and it occurs, and never otherwise |
| CheckInPanel.SuccessKeyPresent | frontend/src/components/CheckIn.tsx:31-34 | a success response's key is among the keys exactly when the response occurs |
| CheckInPanel.LogLine | frontend/src/components/CheckIn.tsx:39-43 | definition: a truthy id gives the familiar-face line naming the id and the time, anything else the unknown-face line with the message |
| CheckInPanel.LogLineReadBack | frontend/src/components/CheckIn.tsx:39-43 | a log line tells familiar from unknown faces and names the employee, or repeats the message of an unknown face |
| CheckInPanel.LogLinesAppend | frontend/src/components/CheckIn.tsx:39-44 | the log keeps response order: the lines of a concatenation are the lines of each part in turn |
| CheckInPanel.LogLinesReadBack | frontend/src/components/CheckIn.tsx:39-43 | equal logs come from responses that agree position by position on familiar or unknown, on the employee id, and for unknown faces on the message |
| CheckInPanel.Panel.ToggleChecking | frontend/src/components/CheckIn.tsx:71 | flips `isChecking` and nothing else |
| CheckInPanel.Panel.CaptureAndCheckIn | frontend/src/components/CheckIn.tsx:13-48 | each failure appends its one message; a response list updates the key set and appends the log lines of FilterResponses; `isChecking` is untouched |
| ReportView.JsDate.GetDay | frontend/src/components/DailyReport.tsx:32 | a weekday number 0..6: the days since the Sunday 1970-01-04, modulo 7, so 0 is Sunday |
| ReportView.JsDate.Copy | frontend/src/components/DailyReport.tsx:31 | `new Date(reportDate)`: a valid date equal to the original |
| ReportView.JsDate.SetDate | frontend/src/components/DailyReport.tsx:32 | a valid date with the day number of the overflowed date |
| ReportView.WeekStart | frontend/src/components/DailyReport.tsx:31-32 | the date minus its weekday number is a valid date; WeekStartIsPrecedingSunday says which |
| ReportView.WeekStartIsPrecedingSunday | frontend/src/components/DailyReport.tsx:30-33 | the week start is a valid date, a Sunday, on or up to six days before the date |
| ReportView.ReportUrl | frontend/src/components/DailyReport.tsx:24-36 | the URL starts with `/reports/` followed by the report type's initial |
| ReportView.MonthlyUrlIgnoresDay | frontend/src/components/DailyReport.tsx:35 | the monthly URL depends only on the year and month |
| ReportView.DailyUrlInjective | frontend/src/components/DailyReport.tsx:29 | two dates share a daily URL only when they are the same date |
| ReportView.Path3Injective | frontend/src/components/DailyReport.tsx:29 | a year/month/day path determines its three numbers |
| ReportView.WeeklyUrlNamesTheSunday | frontend/src/components/DailyReport.tsx:30-33 | two dates share a weekly URL only when they have the same week start |
| ReportView.FetchReportUrl | frontend/src/components/DailyReport.tsx:21-36 | the URL requested is ReportUrl of the report date, the weekly one through a copied date moved back with `setDate` |
| Calendar.NormalizeDate | frontend/src/components/DailyReport.tsx:32 | a valid date with the same day number as the overflowed day of month |
| Calendar.AddDays | crud.py:132 | a valid date exactly `days` days later |
| Calendar.OrdinalInjective | crud.py:131-132 | different valid dates have different day numbers |
| Calendar.DaysBeforeYearClosedForm | crud.py:131-132 | the recursive year count equals the closed form of Python's `_days_before_year` |
| Calendar.ThirtyOneDaysAfterFirst | crud.py:132 | 31 days after the first of a month falls in the next month, so `replace(day=1)` gives its first day |
| Calendar.NextMonthDistance | crud.py:132 | from the first of a month to the first of the next is the month's length |
| Calendar.Weekday | frontend/src/components/DailyReport.tsx:32 | a number 0..6; WeekdayFromKnownSunday ties it to the calendar |
| Calendar.WeekdayFromKnownSunday | frontend/src/components/DailyReport.tsx:32 | 1970-01-04 has weekday 0, each next day has the next weekday, and the weekday is the number of days since that Sunday modulo 7 |
| Calendar.LastDate | crud.py:121 | 9999-12-31 is day MaxOrdinal, no valid date of years up to 9999 comes later, and only that date has that day number |
| Calendar.DayRange | crud.py:57-60 | a timestamp falls on day `n` exactly when it lies in `[n * 86400, (n + 1) * 86400)` |
| Decimal.IntToStringInjective | frontend/src/components/DailyReport.tsx:29 | different integers have different spellings |
| Decimal.IntFollowedBy | frontend/src/components/CheckIn.tsx:32 | an integer spelling followed by text that starts with a non-digit can be read back |

## Left out

- Face detection, embeddings and `compare_faces`: floating-point numerics in a foreign library. They are an oracle: the match flags of each face against each stored embedding.
- Parsing the embedding JSON, file uploads, the `uploads` directory and the image written per request: I/O.
- Authentication, users, login, tokens, and the employee endpoints (enroll, list, update, delete): outside the attendance pipeline.
- The database session, commits, refreshes and transactions: the table is a sequence of rows. New ids follow the SQLite rowid rule, because `database.py` is not part of this model.
- `list_attendance`: it returns the table as it is.
- The `attendance` objects that `create_attendance` attaches to its results (crud.py:77-85): the endpoint drops them.
- `datetime.utcnow()` and `new Date()`: the clock is a parameter, read once per call. The source reads it again inside `has_attended_today` and at each insert. A clock on 9999-12-31 makes `today + timedelta(days=1)` in `has_attended_today` (crud.py:60) overflow, so the source's check-in answers 500 then; `Api.CheckIn` does not model that failure.
- AttendanceRules.CheckInKeepsOneRecordPerEmployeeDay: holds for the model because one `today` serves both the has-attended test and the new row's date. In the source `has_attended_today` reads the clock again (crud.py:56, against crud.py:64), so a call that runs across midnight tests the next day, finds no row, and inserts a second row dated the earlier day; that race is not modelled.
- AttendanceRules.CheckInKeepsOneRecordPerEmployeeDay: concurrent requests are not modelled either. Each call runs alone on the table. The `(employee_id, date)` index is not unique (models.py:28), and nothing locks between the `has_attended_today` test and the insert (crud.py:70-74) or before the commit (crud.py:77). So two overlapping check-ins for the same employee, served by separate processes, can both find no row and both insert, leaving two rows for one employee and day.
- CheckInPanel.Panel.CaptureAndCheckIn: each capture runs to completion before the next one starts. In the component, `setInterval(captureAndCheckIn, 3000)` (frontend/src/components/CheckIn.tsx:53) starts a capture without waiting for the previous request, so captures can overlap. A response that arrives after Stop is still filtered and logged, because nothing checks `isChecking` when it lands. Neither interleaving is modelled.
- Api.CheckIn: uses the corrected id lookup `MatchedIds`, not main.py:98 as written. When some employee has no embedding, the source checks in a different employee (see "## Findings" and `Api.AsWrittenChecksInTheWrongEmployee`); the two agree when every employee is enrolled (`Api.AsWrittenAgreesWhenAllEnrolled`).
- Decimal.IntToString: plain decimal digits only; JavaScript template literals write numbers of 1e21 and more in exponent form, which the model does not reproduce.
- `datetime.fromisocalendar` in `weekly_report`: the weekly endpoint takes the start timestamp it would give.
- Float hours: worked time is kept in exact seconds, so `total_hours` is `totalSeconds / 3600` without rounding.
- Reports.GenerateReport: a missing employee is a `MissingEmployee` failure. In the source, the `AttributeError` on `None.id` gives a 500 reply.
- Reports.GenerateReport: the report order is table order of the selected rows, as the query returns them. No ORDER BY is modelled.
- React state batching, `useEffect` and the 3-second `setInterval` polling: the panel's methods are the state transitions of one capture and one button press.
- `toDateString()` and `toLocaleTimeString()`: they are string parameters.
- The report page's rendering, `handleDateChange`, loading and error state, and the route parameters: only the URL `fetchReport` builds is modelled.
- ReportView.JsDate: only the calendar date is kept; time of day, time zones and JavaScript's date range are not modelled.
- How the weekly URL is routed on the backend: see the note above.

## Findings

| source | as written | input that shows it | evidently intended | confidence | as-written member | corrected member |
|---|---|---|---|---|---|---|
| main.py:98 | the index of an embedding in the filtered list of employees with embeddings is used as a position in the full employee list | employees 1 (no embedding) and 2 (with embedding); a face matching embedding 0; as written this checks in employee 1 | check in the employee whose embedding matched, i.e. index into the filtered list | not executed; latent: the enroll and update endpoints always store `json.dumps(embedding)` (crud.py:42-43, main.py:172), so the defect needs a row whose `face_embedding` is NULL or empty, which the nullable column allows (models.py:18) and which arises only from writes outside these endpoints, such as a direct database insert or a migration | Api.AsWrittenChecksInTheWrongEmployee | Api.MatchedIds |
