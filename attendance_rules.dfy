/**
 * The attendance table and the rules crud.py applies to it, as functions on
 * the table's rows in table order. The Store class in attendance_store.dfy
 * performs these operations in place and is specified by them.
 */
module AttendanceRules {
  import opened Common
  import opened Calendar
  import opened Models

  const CheckInSuccessful: string := "Check-in successful"
  const AlreadyAttended: string := "You have already attended today"

  /** One entry of the list `create_attendance` returns. */
  datatype CheckInResult = CheckInResult(employeeId: int, message: string)

  /** Row ids strictly increase in table order, so no two rows share an id. */
  predicate IdsIncreasing(records: seq<Attendance>) {
    forall i, j :: 0 <= i < j < |records| ==> records[i].id < records[j].id
  }

  /** The id the store gives a new row: one more than the largest id, 1 for an empty table. */
  function NextId(records: seq<Attendance>): int {
    if records == [] then 1 else records[|records| - 1].id + 1
  }

  /** The row's `date` lies in the half-open day window [day, day + 1 day). */
  predicate OnDay(r: Attendance, day: int) {
    DayStart(day) <= r.date < DayStart(day + 1)
  }

  /** `has_attended_today`: some row of the employee, open or closed, is dated today. */
  predicate HasAttendedToday(records: seq<Attendance>, employeeId: int, today: int) {
    exists k :: 0 <= k < |records| && records[k].employeeId == employeeId && OnDay(records[k], today)
  }

  /** No employee has two rows dated on the same day. */
  predicate OneRecordPerEmployeeDay(records: seq<Attendance>) {
    forall i, j ::
      0 <= i < j < |records| && records[i].employeeId == records[j].employeeId
      ==> DayOf(records[i].date) != DayOf(records[j].date)
  }

  /** Position of the row with the given id, as the store's `.first()` finds it. */
  function FindIndex(records: seq<Attendance>, id: int): (r: Option<nat>)
    ensures r.Some? ==> r.value < |records| && records[r.value].id == id
    ensures r.Some? ==> forall j :: 0 <= j < r.value ==> records[j].id != id
    ensures r.None? <==> forall k :: 0 <= k < |records| ==> records[k].id != id
  {
    if records == [] then None
    else if records[0].id == id then Some(0)
    else match FindIndex(records[1..], id)
      case None => None
      case Some(k) => Some(k + 1)
  }

  /** `get_attendance_by_id`. */
  function GetAttendanceById(records: seq<Attendance>, id: int): (r: Option<Attendance>)
    ensures r.None? <==> forall k :: 0 <= k < |records| ==> records[k].id != id
    ensures r.Some? ==> r.value in records && r.value.id == id
  {
    match FindIndex(records, id)
    case None => None
    case Some(k) => Some(records[k])
  }

  // ----- create_attendance -----

  /** The open row `create_attendance` inserts: dated at today's midnight, checked in at `now`. */
  function NewAttendance(records: seq<Attendance>, employeeId: int, today: int, now: int): (r: Attendance)
    ensures OnDay(r, today) && r.employeeId == employeeId && r.checkOut.None?
    ensures IdsIncreasing(records) ==> forall k :: 0 <= k < |records| ==> records[k].id < r.id
  {
    Attendance(NextId(records), employeeId, now, None, DayStart(today))
  }

  /** The loop state of `create_attendance`: the table, `seen_ids` and `results`. */
  datatype CheckInRun = CheckInRun(records: seq<Attendance>, seen: set<int>, results: seq<CheckInResult>)

  /** One iteration of the loop of `create_attendance` for one recognised id. */
  function CheckInStep(run: CheckInRun, employeeId: int, today: int, now: int): CheckInRun {
    if employeeId in run.seen then run
    else if HasAttendedToday(run.records, employeeId, today) then
      run.(results := run.results + [CheckInResult(employeeId, AlreadyAttended)])
    else
      CheckInRun(run.records + [NewAttendance(run.records, employeeId, today, now)],
                 run.seen + {employeeId},
                 run.results + [CheckInResult(employeeId, CheckInSuccessful)])
  }

  /** The whole loop of `create_attendance` over the recognised ids, in order. */
  function CheckInAll(records: seq<Attendance>, ids: seq<int>, today: int, now: int): CheckInRun
    decreases |ids|
  {
    if ids == [] then CheckInRun(records, {}, [])
    else CheckInStep(CheckInAll(records, ids[..|ids| - 1], today, now), ids[|ids| - 1], today, now)
  }

  /**
   * The results `create_attendance` should give, stated without the loop
   * state: an id already dated today in the original table gets "already
   * attended" at each of its occurrences; any other id gets "Check-in
   * successful" at its first occurrence and nothing at later ones.
   */
  function ExpectedResults(records: seq<Attendance>, ids: seq<int>, today: int): seq<CheckInResult>
    decreases |ids|
  {
    if ids == [] then []
    else
      var earlier, e := ids[..|ids| - 1], ids[|ids| - 1];
      ExpectedResults(records, earlier, today) + ExpectedFor(records, earlier, e, today)
  }

  /** The results ExpectedResults gives id e after the ids `earlier`: none or one. */
  function ExpectedFor(records: seq<Attendance>, earlier: seq<int>, e: int, today: int): seq<CheckInResult> {
    if HasAttendedToday(records, e, today) then [CheckInResult(e, AlreadyAttended)]
    else if e in earlier then []
    else [CheckInResult(e, CheckInSuccessful)]
  }

  function NumSuccesses(results: seq<CheckInResult>): nat {
    if results == [] then 0
    else NumSuccesses(results[..|results| - 1])
         + (if results[|results| - 1].message == CheckInSuccessful then 1 else 0)
  }

  /** How many results name employee e with the given message. */
  function CountResults(results: seq<CheckInResult>, e: int, message: string): nat {
    if results == [] then 0
    else CountResults(results[..|results| - 1], e, message)
         + (if results[|results| - 1] == CheckInResult(e, message) then 1 else 0)
  }

  function Occurrences(ids: seq<int>, e: int): nat {
    if ids == [] then 0
    else Occurrences(ids[..|ids| - 1], e) + (if ids[|ids| - 1] == e then 1 else 0)
  }

  lemma HasAttendedAppend(records: seq<Attendance>, r: Attendance, e: int, today: int)
    ensures HasAttendedToday(records + [r], e, today)
            <==> HasAttendedToday(records, e, today) || (r.employeeId == e && OnDay(r, today))
  {
    if HasAttendedToday(records, e, today) {
      var k :| 0 <= k < |records| && records[k].employeeId == e && OnDay(records[k], today);
      assert (records + [r])[k] == records[k];
    }
    if r.employeeId == e && OnDay(r, today) {
      assert (records + [r])[|records|] == r;
    }
    if HasAttendedToday(records + [r], e, today) {
      var k :| 0 <= k < |records| + 1 && (records + [r])[k].employeeId == e && OnDay((records + [r])[k], today);
      if k < |records| {
        assert records[k] == (records + [r])[k];
      }
    }
  }

  /** The loop's `seen_ids` holds exactly the listed ids that had no row today. */
  ghost predicate SeenExactly(records: seq<Attendance>, ids: seq<int>, today: int, run: CheckInRun) {
    forall e :: e in run.seen <==> e in ids && !HasAttendedToday(records, e, today)
  }

  /** An employee has a row today after the loop exactly when it had one before or its id was seen. */
  ghost predicate AttendedExactly(records: seq<Attendance>, today: int, run: CheckInRun) {
    forall e :: HasAttendedToday(run.records, e, today) <==> HasAttendedToday(records, e, today) || e in run.seen
  }

  /** The rows past the old table are open rows dated today, checked in at `now`, of seen ids. */
  ghost predicate NewRowsOpenToday(records: seq<Attendance>, today: int, now: int, run: CheckInRun) {
    && |records| <= |run.records|
    && run.records[..|records|] == records
    && (forall k :: |records| <= k < |run.records| ==>
          && run.records[k].employeeId in run.seen
          && run.records[k].checkIn == now
          && run.records[k].checkOut == None
          && run.records[k].date == DayStart(today))
    && (forall k, l :: |records| <= k < l < |run.records| ==>
          run.records[k].employeeId != run.records[l].employeeId)
  }

  lemma {:induction false} CheckInAllSeen(records: seq<Attendance>, ids: seq<int>, today: int, now: int)
    ensures var run := CheckInAll(records, ids, today, now);
      SeenExactly(records, ids, today, run) && AttendedExactly(records, today, run)
    decreases |ids|
  {
    if ids != [] {
      var earlier, e := ids[..|ids| - 1], ids[|ids| - 1];
      CheckInAllSeen(records, earlier, today, now);
      var run := CheckInAll(records, earlier, today, now);
      assert forall x :: x in ids <==> x in earlier || x == e;
      if e !in run.seen && !HasAttendedToday(run.records, e, today) {
        SeenStep(records, today, now, run, e);
      }
    }
  }

  /** A successful step keeps AttendedExactly: the new row is the employee's, dated today. */
  lemma SeenStep(records: seq<Attendance>, today: int, now: int, run: CheckInRun, e: int)
    requires AttendedExactly(records, today, run)
    ensures AttendedExactly(records, today,
      CheckInRun(run.records + [NewAttendance(run.records, e, today, now)], run.seen + {e}, []))
  {
    var r := NewAttendance(run.records, e, today, now);
    forall x ensures HasAttendedToday(run.records + [r], x, today)
                     <==> HasAttendedToday(records, x, today) || x in run.seen + {e}
    {
      HasAttendedAppend(run.records, r, x, today);
    }
  }

  lemma {:induction false} CheckInAllRows(records: seq<Attendance>, ids: seq<int>, today: int, now: int)
    ensures NewRowsOpenToday(records, today, now, CheckInAll(records, ids, today, now))
    decreases |ids|
  {
    if ids != [] {
      var earlier, e := ids[..|ids| - 1], ids[|ids| - 1];
      CheckInAllRows(records, earlier, today, now);
      var run := CheckInAll(records, earlier, today, now);
      if e !in run.seen && !HasAttendedToday(run.records, e, today) {
        RowsStep(records, today, now, run, e);
      }
    }
  }

  /** Appending the row of an id not yet seen keeps NewRowsOpenToday. */
  lemma RowsStep(records: seq<Attendance>, today: int, now: int, run: CheckInRun, e: int)
    requires NewRowsOpenToday(records, today, now, run)
    requires e !in run.seen
    ensures NewRowsOpenToday(records, today, now,
      CheckInRun(run.records + [NewAttendance(run.records, e, today, now)], run.seen + {e}, []))
  {
    var rs := run.records + [NewAttendance(run.records, e, today, now)];
    assert rs[..|records|] == run.records[..|records|];
    assert forall k :: 0 <= k < |run.records| ==> rs[k] == run.records[k];
  }

  lemma {:induction false} CheckInAllCounts(records: seq<Attendance>, ids: seq<int>, today: int, now: int)
    ensures var run := CheckInAll(records, ids, today, now);
      |run.records| - |records| == |run.seen| == NumSuccesses(run.results)
    decreases |ids|
  {
    if ids != [] {
      var earlier, e := ids[..|ids| - 1], ids[|ids| - 1];
      CheckInAllCounts(records, earlier, today, now);
      var run := CheckInAll(records, earlier, today, now);
      if e !in run.seen {
        var message := if HasAttendedToday(run.records, e, today) then AlreadyAttended else CheckInSuccessful;
        var results' := run.results + [CheckInResult(e, message)];
        assert results'[..|results'| - 1] == run.results;
        assert |run.seen + {e}| == |run.seen| + 1;
      }
    }
  }

  lemma {:induction false} CheckInAllResults(records: seq<Attendance>, ids: seq<int>, today: int, now: int)
    ensures CheckInAll(records, ids, today, now).results == ExpectedResults(records, ids, today)
    decreases |ids|
  {
    if ids != [] {
      var earlier, e := ids[..|ids| - 1], ids[|ids| - 1];
      CheckInAllResults(records, earlier, today, now);
      CheckInAllSeen(records, earlier, today, now);
    }
  }

  /**
   * What one `create_attendance` call does to the table: the old rows stay in
   * place, one open row dated today is added per distinct id that had no row
   * today, and the results are ExpectedResults.
   */
  lemma CheckInAllShape(records: seq<Attendance>, ids: seq<int>, today: int, now: int)
    ensures var run := CheckInAll(records, ids, today, now);
      && NewRowsOpenToday(records, today, now, run)
      && SeenExactly(records, ids, today, run)
      && AttendedExactly(records, today, run)
      && |run.records| - |records| == |run.seen| == NumSuccesses(run.results)
      && run.results == ExpectedResults(records, ids, today)
  {
    CheckInAllSeen(records, ids, today, now);
    CheckInAllRows(records, ids, today, now);
    CheckInAllCounts(records, ids, today, now);
    CheckInAllResults(records, ids, today, now);
  }

  /** After the call, every recognised id has a row dated today. */
  lemma EveryRecognisedEmployeeAttended(records: seq<Attendance>, ids: seq<int>, today: int, now: int)
    ensures forall e :: e in ids ==> HasAttendedToday(CheckInAll(records, ids, today, now).records, e, today)
  {
    CheckInAllSeen(records, ids, today, now);
  }

  /** Rows of employees not on the list, and of every day but today, are exactly as before. */
  lemma CheckInLeavesOthersAlone(records: seq<Attendance>, ids: seq<int>, today: int, now: int)
    ensures var after := CheckInAll(records, ids, today, now).records;
      && |records| <= |after|
      && after[..|records|] == records
      && forall k :: |records| <= k < |after| ==> after[k].employeeId in ids && OnDay(after[k], today)
  {
    CheckInAllSeen(records, ids, today, now);
    CheckInAllRows(records, ids, today, now);
  }

  /** At most one row per employee per day: `create_attendance` never adds a second row for a day. */
  lemma CheckInKeepsOneRecordPerEmployeeDay(records: seq<Attendance>, ids: seq<int>, today: int, now: int)
    requires OneRecordPerEmployeeDay(records)
    ensures OneRecordPerEmployeeDay(CheckInAll(records, ids, today, now).records)
  {
    CheckInAllSeen(records, ids, today, now);
    CheckInAllRows(records, ids, today, now);
    var after := CheckInAll(records, ids, today, now).records;
    forall i, j | 0 <= i < j < |after| && after[i].employeeId == after[j].employeeId
      ensures DayOf(after[i].date) != DayOf(after[j].date)
    {
      if j >= |records| {
        var e := after[j].employeeId;
        DayRange(after[j].date, today);
        if i < |records| {
          assert after[i] == records[i];
          assert !(records[i].employeeId == e && OnDay(records[i], today));
          DayRange(after[i].date, today);
        }
      } else {
        assert after[i] == records[i] && after[j] == records[j];
      }
    }
  }

  /** Per employee, the results of ExpectedResults. */
  lemma ExpectedResultsPerEmployee(records: seq<Attendance>, ids: seq<int>, today: int, e: int)
    ensures var res := ExpectedResults(records, ids, today);
      && CountResults(res, e, AlreadyAttended)
         == (if HasAttendedToday(records, e, today) then Occurrences(ids, e) else 0)
      && CountResults(res, e, CheckInSuccessful)
         == (if !HasAttendedToday(records, e, today) && e in ids then 1 else 0)
  {
    AlreadyAttendedCount(records, ids, today, e);
    SuccessCount(records, ids, today, e);
  }

  lemma {:induction false} AlreadyAttendedCount(records: seq<Attendance>, ids: seq<int>, today: int, e: int)
    ensures CountResults(ExpectedResults(records, ids, today), e, AlreadyAttended)
            == (if HasAttendedToday(records, e, today) then Occurrences(ids, e) else 0)
    decreases |ids|
  {
    if ids != [] {
      var earlier, x := ids[..|ids| - 1], ids[|ids| - 1];
      AlreadyAttendedCount(records, earlier, today, e);
      CountResultsAppend(ExpectedResults(records, earlier, today), ExpectedFor(records, earlier, x, today), e, AlreadyAttended);
      AlreadyAttendedFor(records, earlier, x, today, e);
    }
  }

  lemma {:induction false} SuccessCount(records: seq<Attendance>, ids: seq<int>, today: int, e: int)
    ensures CountResults(ExpectedResults(records, ids, today), e, CheckInSuccessful)
            == (if !HasAttendedToday(records, e, today) && e in ids then 1 else 0)
    decreases |ids|
  {
    if ids != [] {
      var earlier, x := ids[..|ids| - 1], ids[|ids| - 1];
      SuccessCount(records, earlier, today, e);
      assert forall y :: y in ids <==> y in earlier || y == x;
      CountResultsAppend(ExpectedResults(records, earlier, today), ExpectedFor(records, earlier, x, today), e, CheckInSuccessful);
      SuccessFor(records, earlier, x, today, e);
    }
  }

  lemma AlreadyAttendedFor(records: seq<Attendance>, earlier: seq<int>, x: int, today: int, e: int)
    ensures CountResults(ExpectedFor(records, earlier, x, today), e, AlreadyAttended)
            == if x == e && HasAttendedToday(records, e, today) then 1 else 0
  {
    CountSingle(ExpectedFor(records, earlier, x, today), e, AlreadyAttended);
  }

  lemma SuccessFor(records: seq<Attendance>, earlier: seq<int>, x: int, today: int, e: int)
    ensures CountResults(ExpectedFor(records, earlier, x, today), e, CheckInSuccessful)
            == if x == e && !HasAttendedToday(records, e, today) && x !in earlier then 1 else 0
  {
    CountSingle(ExpectedFor(records, earlier, x, today), e, CheckInSuccessful);
  }

  lemma CountSingle(results: seq<CheckInResult>, e: int, message: string)
    requires |results| <= 1
    ensures CountResults(results, e, message) == if results == [CheckInResult(e, message)] then 1 else 0
  {
    if results != [] {
      assert results[..0] == [];
    }
  }

  lemma {:induction false} CountResultsAppend(a: seq<CheckInResult>, b: seq<CheckInResult>, e: int, message: string)
    ensures CountResults(a + b, e, message) == CountResults(a, e, message) + CountResults(b, e, message)
    decreases |b|
  {
    if b != [] {
      var b' := b[..|b| - 1];
      assert (a + b)[..|a + b| - 1] == a + b';
      assert (a + b)[|a + b| - 1] == b[|b| - 1];
      CountResultsAppend(a, b', e, message);
    } else {
      assert a + b == a;
    }
  }

  /** Results come in input order: the results for a prefix of the ids are a prefix of the results. */
  lemma {:induction false} ExpectedResultsPrefix(records: seq<Attendance>, ids: seq<int>, more: seq<int>, today: int)
    ensures var all := ExpectedResults(records, ids + more, today);
      var part := ExpectedResults(records, ids, today);
      |part| <= |all| && all[..|part|] == part
    decreases |more|
  {
    if more == [] {
      assert ids + more == ids;
    } else {
      var more' := more[..|more| - 1];
      assert (ids + more)[..|ids + more| - 1] == ids + more';
      ExpectedResultsPrefix(records, ids, more', today);
    }
  }

  /** The number of rows added equals the number of "Check-in successful" results. */
  lemma NewRowsMatchSuccesses(records: seq<Attendance>, ids: seq<int>, today: int, now: int)
    ensures var run := CheckInAll(records, ids, today, now);
      |run.records| == |records| + NumSuccesses(run.results)
  {
    CheckInAllCounts(records, ids, today, now);
  }

  lemma NewAttendanceKeepsIds(records: seq<Attendance>, e: int, today: int, now: int)
    requires IdsIncreasing(records)
    ensures IdsIncreasing(records + [NewAttendance(records, e, today, now)])
  {
  }

  // ----- update_check_out -----

  /**
   * `update_check_out`: an open row gets check-out `now`; a closed row comes
   * back unchanged; an unknown id gives None. Nothing compares `now` with the
   * check-in time.
   */
  function CheckOut(records: seq<Attendance>, id: int, now: int): (r: (seq<Attendance>, Option<Attendance>))
    ensures r.1.None? <==> forall k :: 0 <= k < |records| ==> records[k].id != id
    ensures |r.0| == |records|
  {
    match FindIndex(records, id)
    case None => (records, None)
    case Some(k) =>
      if records[k].checkOut.None? then
        var closed := records[k].(checkOut := Some(now));
        (records[k := closed], Some(closed))
      else (records, Some(records[k]))
  }

  /** Only the named row changes, and only in its check-out field. */
  lemma CheckOutFrame(records: seq<Attendance>, id: int, now: int)
    requires IdsIncreasing(records)
    ensures var (after, r) := CheckOut(records, id, now);
      && IdsIncreasing(after)
      && (forall k :: 0 <= k < |records| && records[k].id != id ==> after[k] == records[k])
      && (forall k :: 0 <= k < |records| && records[k].id == id ==>
            && r == Some(after[k])
            && after[k] == records[k].(checkOut := if records[k].checkOut.None? then Some(now) else records[k].checkOut))
  {
  }

  /** A second check-out of the same row changes nothing and returns the first check-out time. */
  lemma CheckOutTwiceIsNoOp(records: seq<Attendance>, id: int, now1: int, now2: int)
    requires IdsIncreasing(records)
    ensures var (once, r1) := CheckOut(records, id, now1);
      CheckOut(once, id, now2) == (once, r1)
  {
    var (once, r1) := CheckOut(records, id, now1);
    match FindIndex(records, id)
    case None =>
    case Some(k) =>
      assert forall j :: 0 <= j < |once| ==> once[j].id == records[j].id;
      assert once[k].id == id;
      var j := FindIndex(once, id).value;
      assert records[j].id == id;
      assert j == k;
  }

  /** A checked-out employee still counts as having attended today. */
  lemma CheckOutKeepsAttendance(records: seq<Attendance>, id: int, now: int, e: int, today: int)
    ensures HasAttendedToday(CheckOut(records, id, now).0, e, today) == HasAttendedToday(records, e, today)
  {
    var after := CheckOut(records, id, now).0;
    assert forall k :: 0 <= k < |records| ==>
      after[k].employeeId == records[k].employeeId && after[k].date == records[k].date;
  }

  // ----- delete_attendance -----

  /** `delete_attendance`: removes the row with the id and says whether there was one. */
  function DeleteRecord(records: seq<Attendance>, id: int): (r: (seq<Attendance>, bool))
    ensures r.1 <==> exists k :: 0 <= k < |records| && records[k].id == id
  {
    match FindIndex(records, id)
    case None => (records, false)
    case Some(k) => (records[..k] + records[k + 1..], true)
  }

  lemma RemoveAt(records: seq<Attendance>, k: nat)
    requires IdsIncreasing(records)
    requires k < |records|
    ensures var after := records[..k] + records[k + 1..];
      && |after| == |records| - 1
      && IdsIncreasing(after)
      && (forall j :: 0 <= j < |after| ==> after[j].id != records[k].id)
      && (forall r :: r in after <==> r in records && r.id != records[k].id)
  {
    RemoveAtPositions(records, k);
    RemoveAtMembers(records, k);
  }

  lemma RemoveAtPositions(records: seq<Attendance>, k: nat)
    requires k < |records|
    ensures var after := records[..k] + records[k + 1..];
      && |after| == |records| - 1
      && forall j :: 0 <= j < |after| ==> after[j] == (if j < k then records[j] else records[j + 1])
  {
  }

  lemma RemoveAtMembers(records: seq<Attendance>, k: nat)
    requires IdsIncreasing(records)
    requires k < |records|
    ensures var after := records[..k] + records[k + 1..];
      forall r :: r in after <==> r in records && r.id != records[k].id
  {
    var after := records[..k] + records[k + 1..];
    RemoveAtPositions(records, k);
    forall r ensures r in after <==> r in records && r.id != records[k].id {
      if r in records && r.id != records[k].id {
        var j :| 0 <= j < |records| && records[j] == r;
        if j < k { assert after[j] == r; } else { assert after[j - 1] == r; }
      }
    }
  }

  /** After a delete no row has the id, every other row is still there, in order. */
  lemma DeleteRemovesExactlyOne(records: seq<Attendance>, id: int)
    requires IdsIncreasing(records)
    ensures var (after, found) := DeleteRecord(records, id);
      && IdsIncreasing(after)
      && |after| == |records| - (if found then 1 else 0)
      && (forall k :: 0 <= k < |after| ==> after[k].id != id)
      && (forall r :: r in after <==> r in records && r.id != id)
  {
    var k := FindIndex(records, id);
    if k.Some? {
      RemoveAt(records, k.value);
    }
  }

  // ----- update_attendance -----

  /**
   * `update_attendance`: the row with the id takes the payload's employee,
   * check-in, check-out and date; the payload's own id is ignored.
   */
  function UpdateRecord(records: seq<Attendance>, id: int, payload: Attendance): (r: (seq<Attendance>, Option<Attendance>))
    ensures r.1.None? <==> forall k :: 0 <= k < |records| ==> records[k].id != id
    ensures r.1.Some? ==> r.1.value == payload.(id := id)
    ensures |r.0| == |records|
  {
    match FindIndex(records, id)
    case None => (records, None)
    case Some(k) =>
      var updated := records[k].(employeeId := payload.employeeId, checkIn := payload.checkIn,
                                 checkOut := payload.checkOut, date := payload.date);
      (records[k := updated], Some(updated))
  }

  /** Only the named row changes; ids stay as they were. */
  lemma UpdateFrame(records: seq<Attendance>, id: int, payload: Attendance)
    requires IdsIncreasing(records)
    ensures var (after, r) := UpdateRecord(records, id, payload);
      && IdsIncreasing(after)
      && (forall k :: 0 <= k < |records| ==> after[k].id == records[k].id)
      && (forall k :: 0 <= k < |records| && records[k].id != id ==> after[k] == records[k])
      && (forall k :: 0 <= k < |records| && records[k].id == id ==> r == Some(after[k]))
  {
  }
}
