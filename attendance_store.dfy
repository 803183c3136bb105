/**
 * The attendance table as crud.py changes it in place. Each method is
 * specified by the function of AttendanceRules that describes the same
 * operation on the old rows; the lemmas there say what those functions promise.
 */
module AttendanceStore {
  import opened Common
  import opened Models
  import opened AttendanceRules

  class Store {
    /** The rows of the `attendance` table, in id order. */
    var records: seq<Attendance>

    ghost predicate Valid()
      reads this
    {
      IdsIncreasing(records)
    }

    constructor ()
      ensures Valid() && records == []
    {
      records := [];
    }

    /**
     * `create_attendance`: walks the recognised ids in order, skipping ids
     * already checked in by this call and refusing ids with a row dated today.
     */
    method CreateAttendance(employeeIds: seq<int>, today: int, now: int) returns (results: seq<CheckInResult>)
      requires Valid()
      modifies this
      ensures Valid()
      ensures records == CheckInAll(old(records), employeeIds, today, now).records
      ensures results == CheckInAll(old(records), employeeIds, today, now).results
    {
      var seen: set<int> := {};
      results := [];
      for i := 0 to |employeeIds|
        invariant CheckInAll(old(records), employeeIds[..i], today, now) == CheckInRun(records, seen, results)
        invariant IdsIncreasing(records)
      {
        assert employeeIds[..i + 1][..i] == employeeIds[..i];
        var employeeId := employeeIds[i];
        if employeeId in seen {
          continue;
        }
        if HasAttendedToday(records, employeeId, today) {
          results := results + [CheckInResult(employeeId, AlreadyAttended)];
        } else {
          NewAttendanceKeepsIds(records, employeeId, today, now);
          records := records + [NewAttendance(records, employeeId, today, now)];
          results := results + [CheckInResult(employeeId, CheckInSuccessful)];
          seen := seen + {employeeId};
        }
      }
      assert employeeIds[..|employeeIds|] == employeeIds;
    }

    /** `update_check_out`: closes an open row at `now`; a closed row is returned as it is. */
    method UpdateCheckOut(attendanceId: int, now: int) returns (r: Option<Attendance>)
      requires Valid()
      modifies this
      ensures Valid()
      ensures (records, r) == CheckOut(old(records), attendanceId, now)
    {
      CheckOutFrame(records, attendanceId, now);
      var k := FindIndex(records, attendanceId);
      if k.None? {
        return None;
      }
      if records[k.value].checkOut.None? {
        records := records[k.value := records[k.value].(checkOut := Some(now))];
      }
      r := Some(records[k.value]);
    }

    /** `update_attendance`: overwrites employee, check-in, check-out and date of the row. */
    method UpdateAttendance(attendanceId: int, payload: Attendance) returns (r: Option<Attendance>)
      requires Valid()
      modifies this
      ensures Valid()
      ensures (records, r) == UpdateRecord(old(records), attendanceId, payload)
    {
      UpdateFrame(records, attendanceId, payload);
      var k := FindIndex(records, attendanceId);
      if k.None? {
        return None;
      }
      var row := records[k.value];
      row := row.(employeeId := payload.employeeId, checkIn := payload.checkIn,
                  checkOut := payload.checkOut, date := payload.date);
      records := records[k.value := row];
      r := Some(row);
    }

    /** `delete_attendance`: removes the row and says whether there was one. */
    method DeleteAttendance(attendanceId: int) returns (deleted: bool)
      requires Valid()
      modifies this
      ensures Valid()
      ensures (records, deleted) == DeleteRecord(old(records), attendanceId)
    {
      DeleteRemovesExactlyOne(records, attendanceId);
      var k := FindIndex(records, attendanceId);
      if k.None? {
        return false;
      }
      records := records[..k.value] + records[k.value + 1..];
      deleted := true;
    }
  }
}
