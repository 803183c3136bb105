/**
 * The attendance and report endpoints of main.py: what each answers, and how
 * `check_in` turns the face-match results into employee ids for
 * `create_attendance`.
 */
module Api {
  import opened Common
  import opened Calendar
  import opened Models
  import opened AttendanceRules
  import opened AttendanceStore
  import opened FaceMatching
  import opened Reports

  const NoEmployeesRecognized: string := "No employees recognized in the image"
  const AttendanceNotFound: string := "Attendance not found"
  const AttendanceRecordNotFound: string := "Attendance record not found"
  const AttendanceDeleted: string := "Attendance deleted"
  /** What FastAPI answers for an exception the endpoint does not catch. */
  const InternalServerError: string := "Internal Server Error"

  /** An HTTP answer: 200 with a body, or an error status with its detail. */
  datatype Reply<T> = Ok(body: T) | Error(status: int, detail: string)

  /** One item of the `check_in` response. */
  datatype CheckInItem = CheckInItem(employeeId: Option<int>, message: string)

  // ----- which employees a face can match -----

  /** The employees whose embeddings are sent to `batch_verify_faces`, in table order. */
  function Enrolled(employees: seq<Employee>): (r: seq<Employee>)
    ensures |r| <= |employees|
    ensures forall e :: e in r <==> e in employees && HasEmbedding(e)
  {
    if employees == [] then []
    else
      var init, last := employees[..|employees| - 1], employees[|employees| - 1];
      assert employees == init + [last];
      Enrolled(init) + (if HasEmbedding(last) then [last] else [])
  }

  lemma {:induction false} EnrolledAll(employees: seq<Employee>)
    requires forall k :: 0 <= k < |employees| ==> HasEmbedding(employees[k])
    ensures Enrolled(employees) == employees
    decreases |employees|
  {
    if employees != [] {
      var init, last := employees[..|employees| - 1], employees[|employees| - 1];
      EnrolledAll(init);
      assert HasEmbedding(last);
      assert Enrolled(employees) == init + [last];
      assert init + [last] == employees;
    }
  }

  /** The filter keeps table order: filtering a concatenation filters each part. */
  lemma {:induction false} EnrolledAppend(a: seq<Employee>, b: seq<Employee>)
    ensures Enrolled(a + b) == Enrolled(a) + Enrolled(b)
    decreases |b|
  {
    if b == [] {
      assert a + b == a;
    } else {
      var b', last := b[..|b| - 1], b[|b| - 1];
      assert (a + b)[..|a + b| - 1] == a + b';
      assert (a + b)[|a + b| - 1] == last;
      EnrolledAppend(a, b');
    }
  }

  /** The filter of main.py:98: a match flag set and an index other than -1. */
  predicate IsMatched(r: FaceResult) {
    r.matched && r.index != -1
  }

  /** Every matched result points into a list of `count` embeddings. */
  predicate IndicesBelow(results: seq<FaceResult>, count: int) {
    forall k :: 0 <= k < |results| && IsMatched(results[k]) ==> 0 <= results[k].index < count
  }

  function NumMatched(results: seq<FaceResult>): nat {
    if results == [] then 0
    else NumMatched(results[..|results| - 1]) + (if IsMatched(results[|results| - 1]) then 1 else 0)
  }

  /**
   * main.py:98 as written: the index of an embedding in the filtered list
   * is used as a position in the full employee list.
   */
  function MatchedIdsAsWritten(employees: seq<Employee>, results: seq<FaceResult>): (ids: seq<int>)
    requires IndicesBelow(results, |Enrolled(employees)|)
    ensures |ids| == NumMatched(results)
    ensures forall x :: x in ids ==> exists k :: 0 <= k < |employees| && employees[k].id == x
  {
    if results == [] then []
    else
      var init, last := results[..|results| - 1], results[|results| - 1];
      var rest := MatchedIdsAsWritten(employees, init);
      if IsMatched(last) then rest + [employees[last.index].id] else rest
  }

  /** The ids of the employees whose embeddings matched, face by face, duplicates kept. */
  function MatchedIds(employees: seq<Employee>, results: seq<FaceResult>): (ids: seq<int>)
    requires IndicesBelow(results, |Enrolled(employees)|)
    ensures |ids| == NumMatched(results)
    ensures forall x :: x in ids ==> exists e :: e in employees && HasEmbedding(e) && e.id == x
  {
    if results == [] then []
    else
      var init, last := results[..|results| - 1], results[|results| - 1];
      var rest := MatchedIds(employees, init);
      if IsMatched(last) then
        var e := Enrolled(employees)[last.index];
        assert e in Enrolled(employees);
        rest + [e.id]
      else rest
  }

  /** A matched id belongs to the face at that position: the k-th matched face gives the k-th id. */
  lemma {:induction false} MatchedIdsFollowFaces(employees: seq<Employee>, results: seq<FaceResult>, f: nat)
    requires IndicesBelow(results, |Enrolled(employees)|)
    requires f < |results| && IsMatched(results[f])
    ensures NumMatched(results[..f]) < |MatchedIds(employees, results)|
    ensures MatchedIds(employees, results)[NumMatched(results[..f])] == Enrolled(employees)[results[f].index].id
    decreases |results|
  {
    var init := results[..|results| - 1];
    assert init[..f] == results[..f] || f == |results| - 1;
    if f < |results| - 1 {
      assert init[..f] == results[..f];
      MatchedIdsFollowFaces(employees, init, f);
    } else {
      assert results[..f] == init;
    }
  }

  /** No id is produced exactly when no face matched. */
  lemma NoIdsIffNoMatch(employees: seq<Employee>, results: seq<FaceResult>)
    requires IndicesBelow(results, |Enrolled(employees)|)
    ensures MatchedIds(employees, results) == [] <==> forall f :: 0 <= f < |results| ==> !IsMatched(results[f])
  {
    if exists f :: 0 <= f < |results| && IsMatched(results[f]) {
      var f :| 0 <= f < |results| && IsMatched(results[f]);
      MatchedIdsFollowFaces(employees, results, f);
    } else {
      NoMatchCountsZero(results);
    }
  }

  lemma {:induction false} NoMatchCountsZero(results: seq<FaceResult>)
    requires forall f :: 0 <= f < |results| ==> !IsMatched(results[f])
    ensures NumMatched(results) == 0
    decreases |results|
  {
    if results != [] {
      NoMatchCountsZero(results[..|results| - 1]);
    }
  }

  /** When every employee has an embedding the two lookups agree. */
  lemma {:induction false} AsWrittenAgreesWhenAllEnrolled(employees: seq<Employee>, results: seq<FaceResult>)
    requires forall k :: 0 <= k < |employees| ==> HasEmbedding(employees[k])
    requires IndicesBelow(results, |Enrolled(employees)|)
    ensures MatchedIdsAsWritten(employees, results) == MatchedIds(employees, results)
    decreases |results|
  {
    EnrolledAll(employees);
    if results != [] {
      AsWrittenAgreesWhenAllEnrolled(employees, results[..|results| - 1]);
    }
  }

  /**
   * Employee 1 has no embedding, so the only embedding sent is employee 2's.
   * A face matching it gives index 0, which the code as written reads as
   * employee 1.
   */
  lemma AsWrittenChecksInTheWrongEmployee()
    ensures var employees := [Employee(1, "Ann", "staff", None), Employee(2, "Bo", "staff", Some("[0.1]"))];
      var results := [FaceResult(0, true)];
      && Enrolled(employees) == [employees[1]]
      && MatchedIdsAsWritten(employees, results) == [1]
      && MatchedIds(employees, results) == [2]
  {
    var employees := [Employee(1, "Ann", "staff", None), Employee(2, "Bo", "staff", Some("[0.1]"))];
    assert employees[..1] == [employees[0]];
    assert Enrolled(employees[..1]) == [];
    assert Enrolled(employees) == [employees[1]];
    var results := [FaceResult(0, true)];
    assert results[..0] == [];
  }

  /** The match results of `batch_verify_faces` always point into the embeddings sent. */
  lemma FirstMatchIndicesInRange(faceMatches: seq<seq<bool>>, count: int)
    requires forall f :: 0 <= f < |faceMatches| ==> |faceMatches[f]| == count
    ensures IndicesBelow(FirstMatches(faceMatches), count)
  {
  }

  // ----- endpoints -----

  /** The response items of `check_in`: each result's employee id and message, in order. */
  function Items(results: seq<CheckInResult>): (items: seq<CheckInItem>)
    ensures |items| == |results|
    ensures forall k :: 0 <= k < |results| ==> items[k] == CheckInItem(Some(results[k].employeeId), results[k].message)
  {
    seq(|results|, k requires 0 <= k < |results| => CheckInItem(Some(results[k].employeeId), results[k].message))
  }

  /** How many items name employee e with the given message. */
  function CountItems(items: seq<CheckInItem>, e: int, message: string): nat {
    if items == [] then 0
    else CountItems(items[..|items| - 1], e, message)
         + (if items[|items| - 1] == CheckInItem(Some(e), message) then 1 else 0)
  }

  /** Each item repeats one result: per employee and message, the items count the results. */
  lemma {:induction false} ItemsCounts(results: seq<CheckInResult>, e: int, message: string)
    ensures CountItems(Items(results), e, message) == CountResults(results, e, message)
    decreases |results|
  {
    if results != [] {
      var init := results[..|results| - 1];
      assert Items(results)[..|results| - 1] == Items(init);
      ItemsCounts(init, e, message);
    }
  }

  /**
   * The items `check_in` answers for the matched ids: an employee who already
   * had a row today is told so once per occurrence of the id; any other listed
   * employee is told "Check-in successful" exactly once.
   */
  lemma ItemsPerEmployee(records: seq<Attendance>, ids: seq<int>, today: int, now: int, e: int)
    ensures var items := Items(CheckInAll(records, ids, today, now).results);
      && CountItems(items, e, AlreadyAttended)
         == (if HasAttendedToday(records, e, today) then Occurrences(ids, e) else 0)
      && CountItems(items, e, CheckInSuccessful)
         == (if !HasAttendedToday(records, e, today) && e in ids then 1 else 0)
  {
    var results := CheckInAll(records, ids, today, now).results;
    CheckInAllResults(records, ids, today, now);
    ExpectedResultsPerEmployee(records, ids, today, e);
    ItemsCounts(results, e, AlreadyAttended);
    ItemsCounts(results, e, CheckInSuccessful);
  }

  /**
   * `check_in` (main.py:94-104), with the corrected id lookup. `faceMatches`
   * holds the `compare_faces` flags of every detected face against the
   * embeddings of the enrolled employees.
   */
  method CheckIn(store: Store, employees: seq<Employee>, faceMatches: seq<seq<bool>>, today: int, now: int)
    returns (reply: Reply<seq<CheckInItem>>)
    requires store.Valid()
    requires forall f :: 0 <= f < |faceMatches| ==> |faceMatches[f]| == |Enrolled(employees)|
    modifies store
    ensures store.Valid()
    ensures faceMatches == [] ==> reply == Error(500, InternalServerError) && store.records == old(store.records)
    ensures faceMatches != [] ==>
      IndicesBelow(FirstMatches(faceMatches), |Enrolled(employees)|) &&
      var ids := MatchedIds(employees, FirstMatches(faceMatches));
      if ids == [] then
        reply == Ok([CheckInItem(None, NoEmployeesRecognized)]) && store.records == old(store.records)
      else
        var run := CheckInAll(old(store.records), ids, today, now);
        store.records == run.records && reply == Ok(Items(run.results))
  {
    var matchResults := BatchVerifyFaces(faceMatches);
    if matchResults.Failure? {
      return Error(500, InternalServerError);
    }
    FirstMatchIndicesInRange(faceMatches, |Enrolled(employees)|);
    var matchedIds := MatchedIds(employees, matchResults.value);
    if matchedIds == [] {
      return Ok([CheckInItem(None, NoEmployeesRecognized)]);
    }
    var results := store.CreateAttendance(matchedIds, today, now);
    reply := Ok(Items(results));
  }

  /** `get_attendance`: 404 exactly when no row has the id. */
  function GetAttendance(records: seq<Attendance>, id: int): (reply: Reply<Attendance>)
    ensures reply.Error? <==> forall k :: 0 <= k < |records| ==> records[k].id != id
    ensures reply.Error? ==> reply == Error(404, AttendanceNotFound)
    ensures reply.Ok? ==> reply.body in records && reply.body.id == id
  {
    match GetAttendanceById(records, id)
    case None => Error(404, AttendanceNotFound)
    case Some(a) => Ok(a)
  }

  /** `check_out`: 404 exactly when no row has the id; a closed row comes back with its old check-out. */
  method CheckOutEndpoint(store: Store, id: int, now: int) returns (reply: Reply<Attendance>)
    requires store.Valid()
    modifies store
    ensures store.Valid()
    ensures var (after, r) := CheckOut(old(store.records), id, now);
      && store.records == after
      && (r.None? ==> reply == Error(404, AttendanceRecordNotFound))
      && (r.Some? ==> reply == Ok(r.value))
    ensures reply.Error? <==> forall k :: 0 <= k < |old(store.records)| ==> old(store.records)[k].id != id
    ensures forall k :: (0 <= k < |old(store.records)| && old(store.records)[k].id == id
                         && old(store.records)[k].checkOut.Some?) ==> reply == Ok(old(store.records)[k])
  {
    CheckOutFrame(store.records, id, now);
    var r := store.UpdateCheckOut(id, now);
    if r.None? {
      return Error(404, AttendanceRecordNotFound);
    }
    reply := Ok(r.value);
  }

  /** `update_attendance_endpoint`: 404 exactly when no row has the id. */
  method UpdateEndpoint(store: Store, id: int, payload: Attendance) returns (reply: Reply<Attendance>)
    requires store.Valid()
    modifies store
    ensures store.Valid()
    ensures var (after, r) := UpdateRecord(old(store.records), id, payload);
      && store.records == after
      && (r.None? ==> reply == Error(404, AttendanceNotFound))
      && (r.Some? ==> reply == Ok(r.value))
    ensures reply.Error? <==> forall k :: 0 <= k < |old(store.records)| ==> old(store.records)[k].id != id
  {
    var r := store.UpdateAttendance(id, payload);
    if r.None? {
      return Error(404, AttendanceNotFound);
    }
    reply := Ok(r.value);
  }

  /** `delete_attendance_endpoint`: 404 exactly when no row had the id. */
  method DeleteEndpoint(store: Store, id: int) returns (reply: Reply<string>)
    requires store.Valid()
    modifies store
    ensures store.Valid()
    ensures store.records == DeleteRecord(old(store.records), id).0
    ensures reply.Error? <==> forall k :: 0 <= k < |old(store.records)| ==> old(store.records)[k].id != id
    ensures reply.Error? ==> reply == Error(404, AttendanceNotFound)
    ensures reply.Ok? ==> reply.body == AttendanceDeleted
  {
    var deleted := store.DeleteAttendance(id);
    if !deleted {
      return Error(404, AttendanceNotFound);
    }
    reply := Ok(AttendanceDeleted);
  }

  /** A report error is an exception the endpoint does not catch, which FastAPI answers with a 500. */
  function ReportReply(r: Result<seq<ReportEntry>, ReportError>): (reply: Reply<seq<ReportEntry>>)
    ensures reply.Ok? <==> r.Success?
    ensures reply.Ok? ==> reply.body == r.value
    ensures reply.Error? ==> reply.status == 500 && reply.detail == InternalServerError
  {
    match r
    case Success(entries) => Ok(entries)
    case Failure(_) => Error(500, InternalServerError)
  }

  /**
   * `daily_report`: `datetime(year, month, day)` must be a real date in years
   * 1..9999, and the report of 9999-12-31 overflows computing the next day.
   */
  method DailyReportEndpoint(store: Store, employees: seq<Employee>, year: int, month: int, day: int)
    returns (reply: Reply<seq<ReportEntry>>)
    ensures !(1 <= year <= 9999 && ValidDate(Date(year, month, day))) || Date(year, month, day) == Date(9999, 12, 31)
            ==> reply == Error(500, InternalServerError)
    ensures 1 <= year <= 9999 && ValidDate(Date(year, month, day)) && Date(year, month, day) != Date(9999, 12, 31) ==>
      var o := Ordinal(Date(year, month, day));
      o + 1 <= MaxOrdinal
      && exists r :: IsReportOf(r, SelectByDate(store.records, DailyWindow(o).value), employees)
                     && reply == ReportReply(r)
  {
    if !(1 <= year <= 9999 && 1 <= month <= 12 && 1 <= day <= DaysInMonth(year, month)) {
      return Error(500, InternalServerError);
    }
    LastDate(Date(year, month, day));
    var r := DailyReport(store.records, employees, Ordinal(Date(year, month, day)));
    reply := ReportReply(r);
  }

  /**
   * `weekly_report`, from the start timestamp `fromisocalendar` gives; a start
   * within seven days of the end of 9999 overflows computing the end.
   */
  method WeeklyReportEndpoint(store: Store, employees: seq<Employee>, start: int)
    returns (reply: Reply<seq<ReportEntry>>)
    ensures DayOf(start) + 7 > MaxOrdinal ==> reply == Error(500, InternalServerError)
    ensures DayOf(start) + 7 <= MaxOrdinal ==>
      exists r :: IsReportOf(r, SelectByCheckIn(store.records, WeeklyWindow(start).value), employees)
                  && reply == ReportReply(r)
  {
    var r := WeeklyReport(store.records, employees, start);
    reply := ReportReply(r);
  }

  /** `monthly_report`: a bad year or month, or December 9999, is an uncaught error. */
  method MonthlyReportEndpoint(store: Store, employees: seq<Employee>, year: int, month: int)
    returns (reply: Reply<seq<ReportEntry>>)
    ensures MonthlyWindow(year, month).Failure? ==> reply == Error(500, InternalServerError)
    ensures MonthlyWindow(year, month).Success? ==>
      exists r :: IsReportOf(r, SelectByCheckIn(store.records, MonthlyWindow(year, month).value), employees)
                  && reply == ReportReply(r)
  {
    var r := MonthlyReport(store.records, employees, year, month);
    reply := ReportReply(r);
  }
}
