/**
 * The first-match selection of `batch_verify_faces`
 * (face_recognition_service.py). Face detection and `compare_faces` are an
 * oracle: the input holds, for every detected face in detection order, the
 * match flags `compare_faces` gives against each stored embedding.
 */
module FaceMatching {
  import opened Common

  /** `get_face_embeddings` raises ValueError("No faces detected in the image"). */
  datatype FaceError = NoFacesDetected

  /** The (index, match) tuple of one face. */
  datatype FaceResult = FaceResult(index: int, matched: bool)

  /** `result` is what the loop should give for one face: its first matching index, or (-1, False). */
  predicate IsFirstMatch(flags: seq<bool>, result: FaceResult) {
    if result.matched then
      0 <= result.index < |flags| && flags[result.index] && forall j :: 0 <= j < result.index ==> !flags[j]
    else
      result.index == -1 && forall j :: 0 <= j < |flags| ==> !flags[j]
  }

  /** The first-match result of one face, as a function. */
  function FirstMatchOf(flags: seq<bool>): (r: FaceResult)
    ensures IsFirstMatch(flags, r)
  {
    if flags == [] then FaceResult(-1, false)
    else if flags[0] then FaceResult(0, true)
    else
      var rest := FirstMatchOf(flags[1..]);
      if rest.matched then FaceResult(rest.index + 1, true) else rest
  }

  /** Only one result fits a face's flags. */
  lemma FirstMatchUnique(flags: seq<bool>, a: FaceResult, b: FaceResult)
    requires IsFirstMatch(flags, a) && IsFirstMatch(flags, b)
    ensures a == b
  {
  }

  /** A face matches iff one of its flags is set; the index is then a valid stored position, else -1. */
  lemma FirstMatchIndexRange(flags: seq<bool>)
    ensures FirstMatchOf(flags).matched <==> exists j :: 0 <= j < |flags| && flags[j]
    ensures var r := FirstMatchOf(flags);
      if r.matched then 0 <= r.index < |flags| else r.index == -1
  {
  }

  function FirstMatches(faceMatches: seq<seq<bool>>): (r: seq<FaceResult>)
    ensures |r| == |faceMatches|
    ensures forall f :: 0 <= f < |faceMatches| ==> IsFirstMatch(faceMatches[f], r[f])
  {
    seq(|faceMatches|, f requires 0 <= f < |faceMatches| => FirstMatchOf(faceMatches[f]))
  }

  /**
   * `batch_verify_faces`: for each face, scan the flags and stop at the first
   * true one; a face with no true flag gives (-1, False). No detected face is
   * the error `get_face_embeddings` raises.
   */
  method BatchVerifyFaces(faceMatches: seq<seq<bool>>) returns (r: Result<seq<FaceResult>, FaceError>)
    ensures r.Failure? <==> faceMatches == []
    ensures r.Failure? ==> r.error == NoFacesDetected
    ensures r.Success? ==>
      && |r.value| == |faceMatches|
      && (forall f :: 0 <= f < |faceMatches| ==> IsFirstMatch(faceMatches[f], r.value[f]))
      && r.value == FirstMatches(faceMatches)
  {
    if faceMatches == [] {
      return Failure(NoFacesDetected);
    }
    var results: seq<FaceResult> := [];
    for f := 0 to |faceMatches|
      invariant |results| == f
      invariant forall g :: 0 <= g < f ==> IsFirstMatch(faceMatches[g], results[g])
    {
      var matches := faceMatches[f];
      var matchFound := false;
      var idx := 0;
      while idx < |matches|
        invariant 0 <= idx <= |matches|
        invariant forall j :: 0 <= j < idx ==> !matches[j]
      {
        if matches[idx] {
          results := results + [FaceResult(idx, true)];
          matchFound := true;
          break;
        }
        idx := idx + 1;
      }
      if !matchFound {
        results := results + [FaceResult(-1, false)];
      }
    }
    BatchResultsAreFirstMatches(faceMatches, results);
    r := Success(results);
  }

  /** The loop's results are the first-match function applied face by face. */
  lemma BatchResultsAreFirstMatches(faceMatches: seq<seq<bool>>, results: seq<FaceResult>)
    requires |results| == |faceMatches|
    requires forall f :: 0 <= f < |faceMatches| ==> IsFirstMatch(faceMatches[f], results[f])
    ensures results == FirstMatches(faceMatches)
  {
    var expected := FirstMatches(faceMatches);
    forall f | 0 <= f < |faceMatches| ensures results[f] == expected[f] {
      FirstMatchUnique(faceMatches[f], results[f], expected[f]);
    }
  }
}
