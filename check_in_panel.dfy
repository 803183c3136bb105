/**
 * The live check-in component (frontend/src/components/CheckIn.tsx): one
 * capture posts a frame, filters the responses through the set of keys
 * already announced, and appends one log line per response kept.
 */
module CheckInPanel {
  import opened Common
  import opened Decimal
  import AttendanceRules

  const WebcamNotInitialized: string := "Webcam not initialized."
  const CaptureFailed: string := "Failed to capture image."
  const CheckInFailedPrefix: string := "Check-in failed: "
  const FaceDetected: string := " face detected: "
  const FamiliarPrefix: string := "Familiar" + FaceDetected + "Check-in successful for Employee ID "
  const UnknownPrefix: string := "Unknown" + FaceDetected

  /** One item of the check-in endpoint's JSON answer. */
  datatype Response = Response(employeeId: Option<int>, message: string)

  /** What one capture attempt comes to, as far as the component can tell. */
  datatype Capture =
    | NoWebcam                        // webcamRef.current is null
    | NoScreenshot                    // getScreenshot() returned null
    | RequestFailed(error: string)    // the request threw; `error` is its string form
    | Responses(items: seq<Response>)

  /** JavaScript's truth test on `employee_id`: null and 0 are false. */
  predicate Truthy(id: Option<int>) {
    id.Some? && id.value != 0
  }

  /** The responses the filter looks up in the key set. */
  predicate IsSuccess(r: Response) {
    Truthy(r.employeeId) && r.message == AttendanceRules.CheckInSuccessful
  }

  /** The dedup key `${employee_id}-${today}`. */
  function Key(id: int, today: string): string {
    IntToString(id) + ("-" + today)
  }

  /** Keys of different employees differ, and so do keys of different days. */
  lemma KeyInjective(a: int, today1: string, b: int, today2: string)
    requires Key(a, today1) == Key(b, today2)
    ensures a == b && today1 == today2
  {
    IntFollowedBy(a, "-" + today1, b, "-" + today2);
    assert today1 == ("-" + today1)[1..];
    assert today2 == ("-" + today2)[1..];
  }

  /**
   * The `filter` callback applied to the responses in order, with the key set
   * it grows: the responses kept and the key set afterwards.
   */
  function FilterResponses(seen: set<string>, items: seq<Response>, today: string): (r: (seq<Response>, set<string>))
    ensures seen <= r.1
    ensures |r.0| <= |items|
    ensures forall x :: x in r.0 ==> x in items
  {
    if items == [] then ([], seen)
    else
      var init, x := items[..|items| - 1], items[|items| - 1];
      var (kept, s) := FilterResponses(seen, init, today);
      if IsSuccess(x) then
        var key := Key(x.employeeId.value, today);
        if key in s then (kept, s) else (kept + [x], s + {key})
      else (kept + [x], s)
  }

  /** The keys of the success responses among `items`. */
  function SuccessKeys(items: seq<Response>, today: string): set<string> {
    if items == [] then {}
    else
      var x := items[|items| - 1];
      SuccessKeys(items[..|items| - 1], today) + (if IsSuccess(x) then {Key(x.employeeId.value, today)} else {})
  }

  function CountOf(items: seq<Response>, x: Response): nat {
    if items == [] then 0
    else CountOf(items[..|items| - 1], x) + (if items[|items| - 1] == x then 1 else 0)
  }

  /** A success response's key is among the keys exactly when that response itself occurs. */
  lemma {:induction false} SuccessKeyPresent(items: seq<Response>, today: string, x: Response)
    requires IsSuccess(x)
    ensures Key(x.employeeId.value, today) in SuccessKeys(items, today) <==> CountOf(items, x) > 0
    decreases |items|
  {
    if items != [] {
      var y := items[|items| - 1];
      SuccessKeyPresent(items[..|items| - 1], today, x);
      if IsSuccess(y) && Key(y.employeeId.value, today) == Key(x.employeeId.value, today) {
        KeyInjective(y.employeeId.value, today, x.employeeId.value, today);
      }
    }
  }

  /**
   * The key set only grows, and exactly by the keys of the success responses:
   * other responses never touch it.
   */
  lemma {:induction false} FilterAddsSuccessKeys(seen: set<string>, items: seq<Response>, today: string)
    ensures FilterResponses(seen, items, today).1 == seen + SuccessKeys(items, today)
    decreases |items|
  {
    if items != [] {
      FilterAddsSuccessKeys(seen, items[..|items| - 1], today);
    }
  }

  /**
   * Responses other than "Check-in successful" for a truthy id always pass;
   * a success response passes once if its key was not already in the set,
   * and never if it was.
   */
  lemma {:induction false} FilterCounts(seen: set<string>, items: seq<Response>, today: string, x: Response)
    ensures !IsSuccess(x) ==> CountOf(FilterResponses(seen, items, today).0, x) == CountOf(items, x)
    ensures IsSuccess(x) ==>
      CountOf(FilterResponses(seen, items, today).0, x)
      == if Key(x.employeeId.value, today) in seen || CountOf(items, x) == 0 then 0 else 1
    decreases |items|
  {
    if items != [] {
      var init, y := items[..|items| - 1], items[|items| - 1];
      FilterCounts(seen, init, today, x);
      FilterAddsSuccessKeys(seen, init, today);
      var (kept, s) := FilterResponses(seen, init, today);
      assert (kept + [y])[..|kept|] == kept;
      if IsSuccess(x) {
        SuccessKeyPresent(init, today, x);
        if IsSuccess(y) && Key(y.employeeId.value, today) == Key(x.employeeId.value, today) {
          KeyInjective(y.employeeId.value, today, x.employeeId.value, today);
        }
      }
    }
  }

  /**
   * The filter keeps input order: filtering a concatenation filters the first
   * part, then the second part with the keys the first part left.
   */
  lemma {:induction false} FilterAppend(seen: set<string>, a: seq<Response>, b: seq<Response>, today: string)
    ensures var (keptA, seenA) := FilterResponses(seen, a, today);
      var (keptB, seenB) := FilterResponses(seenA, b, today);
      FilterResponses(seen, a + b, today) == (keptA + keptB, seenB)
    decreases |b|
  {
    if b == [] {
      assert a + b == a;
      assert FilterResponses(seen, a, today).0 + [] == FilterResponses(seen, a, today).0;
    } else {
      var b' := b[..|b| - 1];
      assert (a + b)[..|a + b| - 1] == a + b';
      assert (a + b)[|a + b| - 1] == b[|b| - 1];
      FilterAppend(seen, a, b', today);
      var (keptA, seenA) := FilterResponses(seen, a, today);
      var (keptB', _) := FilterResponses(seenA, b', today);
      assert (keptA + keptB') + [b[|b| - 1]] == keptA + (keptB' + [b[|b| - 1]]);
    }
  }

  /** The log line of one kept response: any truthy id is announced as a successful check-in. */
  function LogLine(r: Response, time: string): string {
    if Truthy(r.employeeId) then FamiliarPrefix + IntToString(r.employeeId.value) + " at " + time
    else UnknownPrefix + r.message
  }

  /**
   * A log line tells familiar from unknown faces and names the employee or
   * repeats the message; for a familiar face the server's message is lost.
   */
  lemma LogLineReadBack(a: Response, b: Response, time: string)
    requires LogLine(a, time) == LogLine(b, time)
    ensures Truthy(a.employeeId) <==> Truthy(b.employeeId)
    ensures Truthy(a.employeeId) ==> a.employeeId == b.employeeId
    ensures !Truthy(a.employeeId) ==> a.message == b.message
  {
    var la, lb := LogLine(a, time), LogLine(b, time);
    FirstChar(a, time);
    FirstChar(b, time);
    if Truthy(a.employeeId) {
      var n := |FamiliarPrefix|;
      assert la[n..] == IntToString(a.employeeId.value) + (" at " + time);
      assert lb[n..] == IntToString(b.employeeId.value) + (" at " + time);
      IntFollowedBy(a.employeeId.value, " at " + time, b.employeeId.value, " at " + time);
    } else {
      var n := |UnknownPrefix|;
      assert a.message == la[n..];
      assert b.message == lb[n..];
    }
  }

  lemma FirstChar(r: Response, time: string)
    ensures LogLine(r, time)[0] == if Truthy(r.employeeId) then 'F' else 'U'
  {
    var rest := if Truthy(r.employeeId) then IntToString(r.employeeId.value) + " at " + time else r.message;
    var prefix := if Truthy(r.employeeId) then FamiliarPrefix else UnknownPrefix;
    assert LogLine(r, time) == prefix + rest;
    assert (prefix + rest)[0] == prefix[0];
    assert FamiliarPrefix[0] == "Familiar"[0] == 'F';
    assert UnknownPrefix[0] == "Unknown"[0] == 'U';
  }

  function LogLines(kept: seq<Response>, time: string): (lines: seq<string>)
    ensures |lines| == |kept|
    ensures forall k :: 0 <= k < |kept| ==> lines[k] == LogLine(kept[k], time)
  {
    seq(|kept|, k requires 0 <= k < |kept| => LogLine(kept[k], time))
  }

  /** The log keeps the order of the kept responses: lines of a concatenation are the lines of each part. */
  lemma LogLinesAppend(a: seq<Response>, b: seq<Response>, time: string)
    ensures LogLines(a + b, time) == LogLines(a, time) + LogLines(b, time)
  {
  }

  /**
   * Equal logs come from responses that agree position by position on whether
   * the face was familiar, on its employee id, and for an unknown face on the
   * message.
   */
  lemma LogLinesReadBack(a: seq<Response>, b: seq<Response>, time: string)
    requires LogLines(a, time) == LogLines(b, time)
    ensures |a| == |b|
    ensures forall k :: 0 <= k < |a| ==>
      && (Truthy(a[k].employeeId) <==> Truthy(b[k].employeeId))
      && (Truthy(a[k].employeeId) ==> a[k].employeeId == b[k].employeeId)
      && (!Truthy(a[k].employeeId) ==> a[k].message == b[k].message)
  {
    forall k | 0 <= k < |a|
      ensures && (Truthy(a[k].employeeId) <==> Truthy(b[k].employeeId))
              && (Truthy(a[k].employeeId) ==> a[k].employeeId == b[k].employeeId)
              && (!Truthy(a[k].employeeId) ==> a[k].message == b[k].message)
    {
      assert LogLines(a, time)[k] == LogLines(b, time)[k];
      LogLineReadBack(a[k], b[k], time);
    }
  }

  class Panel {
    /** The `checkInLog` state. */
    var checkInLog: seq<string>
    /** `processedIds.current`: a ref, so it lives as long as the component. */
    var processedIds: set<string>
    var isChecking: bool

    constructor ()
      ensures checkInLog == [] && processedIds == {} && !isChecking
    {
      checkInLog := [];
      processedIds := {};
      isChecking := false;
    }

    /** The Start/Stop button: flips `isChecking` and nothing else. */
    method ToggleChecking()
      modifies this
      ensures isChecking == !old(isChecking)
      ensures checkInLog == old(checkInLog) && processedIds == old(processedIds)
    {
      isChecking := !isChecking;
    }

    /**
     * `captureAndCheckIn`. `today` is `new Date().toDateString()` and `time`
     * is `toLocaleTimeString()`, both read once for the capture.
     */
    method CaptureAndCheckIn(capture: Capture, today: string, time: string)
      modifies this
      ensures isChecking == old(isChecking)
      ensures capture.NoWebcam? ==>
        checkInLog == old(checkInLog) + [WebcamNotInitialized] && processedIds == old(processedIds)
      ensures capture.NoScreenshot? ==>
        checkInLog == old(checkInLog) + [CaptureFailed] && processedIds == old(processedIds)
      ensures capture.RequestFailed? ==>
        checkInLog == old(checkInLog) + [CheckInFailedPrefix + capture.error] && processedIds == old(processedIds)
      ensures capture.Responses? ==>
        var (kept, seen) := FilterResponses(old(processedIds), capture.items, today);
        processedIds == seen && checkInLog == old(checkInLog) + LogLines(kept, time)
    {
      if capture.NoWebcam? {
        checkInLog := checkInLog + [WebcamNotInitialized];
        return;
      }
      if capture.NoScreenshot? {
        checkInLog := checkInLog + [CaptureFailed];
        return;
      }
      if capture.RequestFailed? {
        checkInLog := checkInLog + [CheckInFailedPrefix + capture.error];
        return;
      }
      var responses := capture.items;
      var kept: seq<Response> := [];
      for i := 0 to |responses|
        invariant (kept, processedIds) == FilterResponses(old(processedIds), responses[..i], today)
        invariant checkInLog == old(checkInLog) && isChecking == old(isChecking)
      {
        assert responses[..i + 1][..i] == responses[..i];
        var res := responses[i];
        if Truthy(res.employeeId) && res.message == AttendanceRules.CheckInSuccessful {
          var key := Key(res.employeeId.value, today);
          if key in processedIds {
            continue;
          }
          processedIds := processedIds + {key};
        }
        kept := kept + [res];
      }
      assert responses[..|responses|] == responses;
      var newLogs := LogLines(kept, time);
      checkInLog := checkInLog + newLogs;
    }
  }
}
