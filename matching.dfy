/** Choosing the known student for a detected face. The face library's
    `face_distance` values are inputs; its `compare_faces` is, by the library's
    definition, the test `distance <= tolerance` on each of them. */
module Matching {
  import opened Wrappers

  /** Tolerance of the capture loops (`run_attendance.py`, `run_attendance_capture.py`,
      `run_recognizer.py`). */
  const CaptureTolerance: real := 0.5
  /** Tolerance of `recognize_face_live` in `face_engine/recognizer.py`. */
  const LiveTolerance: real := 0.45

  /** One detected face: its distance to every known encoding, in the order of the known encodings. */
  datatype Face = Face(distances: seq<real>)

  /** `face_recognition.compare_faces(known, face, tolerance)` */
  function CompareFaces(d: seq<real>, tolerance: real): seq<bool>
  {
    seq(|d|, i requires 0 <= i < |d| => d[i] <= tolerance)
  }

  /** `np.argmin(d)`: the first index holding the smallest distance. */
  function ArgMin(d: seq<real>): (k: nat)
    requires |d| > 0
    ensures k < |d|
    ensures forall j :: 0 <= j < |d| ==> d[k] <= d[j]
    ensures forall j :: 0 <= j < k ==> d[k] < d[j]
    decreases |d|
  {
    if |d| == 1 then 0
    else
      var k := ArgMin(d[1..]);
      if d[0] <= d[1 + k] then 0 else 1 + k
  }

  /** The capture loops' choice: skip an empty distance list, take the nearest
      known encoding (first on ties) and accept it only if it is flagged by
      `compare_faces`. */
  function BestMatch(d: seq<real>, tolerance: real): (r: Option<nat>)
    ensures r.Some? <==> exists j :: 0 <= j < |d| && d[j] <= tolerance
    ensures r.Some? ==> r.value < |d| && d[r.value] <= tolerance
    ensures r.Some? ==> forall j :: 0 <= j < |d| ==> d[r.value] <= d[j]
    ensures r.Some? ==> forall j :: 0 <= j < r.value ==> d[r.value] < d[j]
  {
    if |d| == 0 then None
    else
      var k := ArgMin(d);
      if CompareFaces(d, tolerance)[k] then Some(k) else None
  }

  /** `flags.index(True)` guarded by `True in flags`. */
  function IndexOfTrue(flags: seq<bool>): (r: Option<nat>)
    ensures r.Some? <==> true in flags
    ensures r.Some? ==> r.value < |flags| && flags[r.value]
    ensures r.Some? ==> forall j :: 0 <= j < r.value ==> !flags[j]
    decreases |flags|
  {
    if |flags| == 0 then None
    else if flags[0] then Some(0)
    else
      match IndexOfTrue(flags[1..])
      case None => None
      case Some(k) => Some(k + 1)
  }

  /** The choice of `recognize_face_live`: the first known encoding flagged by
      `compare_faces`, whether or not it is the nearest. */
  function FirstWithin(d: seq<real>, tolerance: real): Option<nat>
  {
    IndexOfTrue(CompareFaces(d, tolerance))
  }

  /** The first-flagged rule and the nearest-flagged rule accept the same faces;
      the first-flagged index never comes after the nearest one and is never nearer. */
  lemma FirstWithinVersusBestMatch(d: seq<real>, tolerance: real)
    ensures FirstWithin(d, tolerance).Some? <==> BestMatch(d, tolerance).Some?
    ensures FirstWithin(d, tolerance).Some? ==>
      var i, k := FirstWithin(d, tolerance).value, BestMatch(d, tolerance).value;
      i <= k && d[k] <= d[i] && d[i] <= tolerance
  {
    var flags := CompareFaces(d, tolerance);
    if exists j :: 0 <= j < |d| && d[j] <= tolerance {
      var j :| 0 <= j < |d| && d[j] <= tolerance;
      assert flags[j];
      var i, k := FirstWithin(d, tolerance).value, BestMatch(d, tolerance).value;
      assert flags[k];
    } else {
      assert true !in flags;
    }
  }

  /** The two rules can disagree: with distances 0.4 and 0.1 both within 0.45,
      `recognize_face_live` names the first student, the capture loops the second. */
  lemma FirstWithinIsNotNearest()
    ensures FirstWithin([0.4, 0.1], LiveTolerance) == Some(0)
    ensures BestMatch([0.4, 0.1], CaptureTolerance) == Some(1)
  {
    var d: seq<real> := [0.4, 0.1];
    assert CompareFaces(d, LiveTolerance)[0];
  }

  /** A face borrowed from the live recogniser would also pass the capture loops,
      whose tolerance is wider. */
  lemma LiveAcceptanceImpliesCaptureAcceptance(d: seq<real>)
    requires FirstWithin(d, LiveTolerance).Some?
    ensures BestMatch(d, CaptureTolerance).Some?
  {
    var i := FirstWithin(d, LiveTolerance).value;
    assert CompareFaces(d, LiveTolerance)[i];
  }

  /** A query identical to a known encoding (distance 0) is accepted for any positive
      tolerance, and the chosen encoding is at distance 0. */
  lemma IdenticalEncodingAccepted(d: seq<real>, j: nat, tolerance: real)
    requires j < |d| && d[j] == 0.0 && tolerance > 0.0
    requires forall i :: 0 <= i < |d| ==> d[i] >= 0.0
    ensures BestMatch(d, tolerance).Some? && d[BestMatch(d, tolerance).value] == 0.0
  {
  }

  /** The face of a frame that the capture loops act on: the first face with an
      accepted match, with the index of that match. */
  function FirstAcceptedFace(faces: seq<Face>, tolerance: real): (r: Option<(nat, nat)>)
    ensures r.Some? <==> exists f :: 0 <= f < |faces| && BestMatch(faces[f].distances, tolerance).Some?
    ensures r.Some? ==> r.value.0 < |faces| && BestMatch(faces[r.value.0].distances, tolerance) == Some(r.value.1)
    ensures r.Some? ==> forall g :: 0 <= g < r.value.0 ==> BestMatch(faces[g].distances, tolerance).None?
    decreases |faces|
  {
    if |faces| == 0 then None
    else
      match BestMatch(faces[0].distances, tolerance)
      case Some(k) => Some((0, k))
      case None =>
        match FirstAcceptedFace(faces[1..], tolerance)
        case None => None
        case Some(p) => Some((p.0 + 1, p.1))
  }
}
