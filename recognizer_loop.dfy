/** `run_recognizer.py`: the earlier stand-alone loop, keyed on the student only, with
    no voice fallback. An already-marked face is passed over and the next face of the
    frame is still considered; a new mark ends the frame. */
module RecognizerLoop {
  import opened Wrappers
  import opened Clock
  import opened Matching
  import opened StudentDb
  import opened JsonLog
  import opened Camera
  import opened StudentSession
  import CaptureLoop

  datatype Decision = MarkNew(m: Mark) | NoNewMark | LookupFailed

  /** The face loop of one frame: the first face whose nearest known encoding is within
      0.5 and whose student is neither in the JSON log today nor in the session set. */
  function RecognizerDecision(faces: seq<Face>, ids: seq<string>, names: seq<string>,
                              file: Option<seq<LogEntry>>, logged: set<string>, now: DateTime): (d: Decision)
    requires ValidDateTime(now) && |ids| == |names| && DistancesFit(faces, |ids|)
    ensures d.MarkNew? ==> d.m.studentId !in logged && StudentLoggedToday(file, d.m.studentId, now) == Some(false)
    ensures d.MarkNew? ==>
      exists f, k :: 0 <= f < |faces| && 0 <= k < |ids| &&
        BestMatch(faces[f].distances, CaptureTolerance) == Some(k) && d.m == Mark(ids[k], names[k])
    ensures d == NoNewMark ==>
      forall f :: 0 <= f < |faces| && BestMatch(faces[f].distances, CaptureTolerance).Some? ==>
        var k := BestMatch(faces[f].distances, CaptureTolerance).value;
        ids[k] in logged || StudentLoggedToday(file, ids[k], now) == Some(true)
    decreases |faces|
  {
    if faces == [] then NoNewMark
    else
      var rest := RecognizerDecision(faces[1..], ids, names, file, logged, now);
      match BestMatch(faces[0].distances, CaptureTolerance)
      case None => rest
      case Some(k) =>
        match StudentLoggedToday(file, ids[k], now)
        case None => LookupFailed
        case Some(b) => if b || ids[k] in logged then rest else MarkNew(Mark(ids[k], names[k]))
  }

  /** Whether the face loop passes over a face: no known encoding within 0.5, or its
      student is already in the JSON log today or in the session set. */
  predicate FaceSkipped(face: Face, ids: seq<string>, file: Option<seq<LogEntry>>, logged: set<string>, now: DateTime)
    requires ValidDateTime(now) && |face.distances| == |ids|
  {
    var best := BestMatch(face.distances, CaptureTolerance);
    best.Some? ==>
      var seen := StudentLoggedToday(file, ids[best.value], now);
      seen.Some? && (seen.value || ids[best.value] in logged)
  }

  /** A face whose JSON check raises the `KeyError`. */
  predicate FaceRaises(face: Face, ids: seq<string>, file: Option<seq<LogEntry>>, now: DateTime)
    requires ValidDateTime(now) && |face.distances| == |ids|
  {
    var best := BestMatch(face.distances, CaptureTolerance);
    best.Some? && StudentLoggedToday(file, ids[best.value], now).None?
  }

  /** A face that yields the new mark `m`. */
  predicate FaceMarksNew(face: Face, m: Mark, ids: seq<string>, names: seq<string>,
                         file: Option<seq<LogEntry>>, logged: set<string>, now: DateTime)
    requires ValidDateTime(now) && |face.distances| == |ids| == |names|
  {
    var best := BestMatch(face.distances, CaptureTolerance);
    best.Some? && StudentLoggedToday(file, ids[best.value], now) == Some(false) &&
    ids[best.value] !in logged && m == Mark(ids[best.value], names[best.value])
  }

  /** The face loop passes over the first `n` faces. */
  predicate SkippedBefore(faces: seq<Face>, n: nat, ids: seq<string>, file: Option<seq<LogEntry>>,
                          logged: set<string>, now: DateTime)
    requires ValidDateTime(now) && DistancesFit(faces, |ids|) && n <= |faces|
  {
    forall g :: 0 <= g < n ==> FaceSkipped(faces[g], ids, file, logged, now)
  }

  lemma SkippedBeforeCons(faces: seq<Face>, n: nat, ids: seq<string>, file: Option<seq<LogEntry>>,
                          logged: set<string>, now: DateTime)
    requires ValidDateTime(now) && DistancesFit(faces, |ids|) && 0 < n <= |faces|
    ensures DistancesFit(faces[1..], |ids|)
    ensures SkippedBefore(faces, n, ids, file, logged, now) <==>
      FaceSkipped(faces[0], ids, file, logged, now) && SkippedBefore(faces[1..], n - 1, ids, file, logged, now)
  {
    assert DistancesFit(faces[1..], |ids|) by {
      forall g | 0 <= g < |faces| - 1 ensures faces[1..][g] == faces[g + 1] { }
    }
    if SkippedBefore(faces[1..], n - 1, ids, file, logged, now) {
      forall g | 1 <= g < n ensures FaceSkipped(faces[g], ids, file, logged, now) {
        assert faces[g] == faces[1..][g - 1];
      }
    }
  }

  /** The decision of a frame is made at the first face the loop does not pass over:
      the `KeyError` there, the new mark there, or no mark when it passes over all. */
  lemma {:induction false} RecognizerDecisionFirst(faces: seq<Face>, ids: seq<string>, names: seq<string>,
                                                   file: Option<seq<LogEntry>>, logged: set<string>, now: DateTime)
    requires ValidDateTime(now) && |ids| == |names| && DistancesFit(faces, |ids|)
    ensures RecognizerDecision(faces, ids, names, file, logged, now) == NoNewMark <==>
      SkippedBefore(faces, |faces|, ids, file, logged, now)
    ensures RecognizerDecision(faces, ids, names, file, logged, now).LookupFailed? <==>
      exists f :: 0 <= f < |faces| && FaceRaises(faces[f], ids, file, now) &&
                  SkippedBefore(faces, f, ids, file, logged, now)
    ensures RecognizerDecision(faces, ids, names, file, logged, now).MarkNew? ==>
      exists f :: 0 <= f < |faces| &&
                  FaceMarksNew(faces[f], RecognizerDecision(faces, ids, names, file, logged, now).m, ids, names, file, logged, now) &&
                  SkippedBefore(faces, f, ids, file, logged, now)
    decreases |faces|
  {
    if faces != [] {
      var face, tail := faces[0], faces[1..];
      SkippedBeforeCons(faces, 1, ids, file, logged, now);
      RecognizerDecisionFirst(tail, ids, names, file, logged, now);
      forall f | 1 <= f <= |faces|
        ensures SkippedBefore(faces, f, ids, file, logged, now) <==>
          FaceSkipped(face, ids, file, logged, now) && SkippedBefore(tail, f - 1, ids, file, logged, now)
      {
        SkippedBeforeCons(faces, f, ids, file, logged, now);
      }
      assert SkippedBefore(faces, 0, ids, file, logged, now);
      var d := RecognizerDecision(faces, ids, names, file, logged, now);
      if FaceSkipped(face, ids, file, logged, now) {
        assert d == RecognizerDecision(tail, ids, names, file, logged, now);
        if exists f :: 0 <= f < |tail| && FaceRaises(tail[f], ids, file, now) && SkippedBefore(tail, f, ids, file, logged, now) {
          var f :| 0 <= f < |tail| && FaceRaises(tail[f], ids, file, now) && SkippedBefore(tail, f, ids, file, logged, now);
          assert faces[f + 1] == tail[f];
        }
        if d.MarkNew? {
          var f :| 0 <= f < |tail| && FaceMarksNew(tail[f], d.m, ids, names, file, logged, now) &&
                   SkippedBefore(tail, f, ids, file, logged, now);
          assert faces[f + 1] == tail[f];
        }
        forall f | 0 <= f < |faces| && SkippedBefore(faces, f, ids, file, logged, now) && f > 0
          ensures SkippedBefore(tail, f - 1, ids, file, logged, now) && faces[f] == tail[f - 1]
        {
        }
      } else {
        assert !SkippedBefore(faces, |faces|, ids, file, logged, now);
        if FaceRaises(face, ids, file, now) {
          assert d.LookupFailed?;
        } else {
          assert FaceMarksNew(face, d.m, ids, names, file, logged, now);
          forall f | 0 < f < |faces| ensures !SkippedBefore(faces, f, ids, file, logged, now) { }
        }
      }
    }
  }

  /** The face loop as written: `continue` past an empty distance list, an unflagged
      nearest match or an already-marked student; `break` after the first new mark. */
  method RecognizerFrame(faces: seq<Face>, ids: seq<string>, names: seq<string>,
                         log: LogFile, logged: set<string>, now: DateTime) returns (d: Decision)
    requires ValidDateTime(now) && |ids| == |names| && DistancesFit(faces, |ids|)
    ensures d == RecognizerDecision(faces, ids, names, log.entries, logged, now)
  {
    var i := 0;
    while i < |faces|
      invariant 0 <= i <= |faces|
      invariant RecognizerDecision(faces, ids, names, log.entries, logged, now) ==
                RecognizerDecision(faces[i..], ids, names, log.entries, logged, now)
    {
      assert faces[i..][1..] == faces[i + 1..];
      var distances := faces[i].distances;
      if |distances| == 0 {
        i := i + 1;
        continue;
      }
      var best := ArgMin(distances);
      if CompareFaces(distances, CaptureTolerance)[best] {
        var sid, name := ids[best], names[best];
        var seen := log.AlreadyLoggedTodayByStudent(sid, now);
        if seen.None? {
          return LookupFailed;
        }
        if seen.value || sid in logged {
          i := i + 1;
          continue;
        }
        return MarkNew(Mark(sid, name));
      }
      i := i + 1;
    }
    return NoNewMark;
  }

  /** The two stand-alone loops differ on a frame whose first recognised student is
      already marked: the capture loop stops there, this loop goes on to the next face. */
  lemma CaptureStopsWhereRecognizerContinues(first: Face, second: Face, ids: seq<string>, names: seq<string>,
                                             file: Option<seq<LogEntry>>, logged: set<string>, now: DateTime, k: nat, j: nat)
    requires ValidDateTime(now) && |ids| == |names| && DistancesFit([first, second], |ids|)
    requires BestMatch(first.distances, CaptureTolerance) == Some(k) && k < |ids| && ids[k] in logged
    requires StudentLoggedToday(file, ids[k], now).Some?
    requires BestMatch(second.distances, CaptureTolerance) == Some(j) && j < |ids| && ids[j] !in logged
    requires StudentLoggedToday(file, ids[j], now) == Some(false)
    ensures CaptureLoop.CaptureDecision([first, second], ids, names, file, logged, now) == CaptureLoop.AlreadyMarked(Mark(ids[k], names[k]))
    ensures RecognizerDecision([first, second], ids, names, file, logged, now) == MarkNew(Mark(ids[j], names[j]))
  {
    assert [first, second][1..] == [second];
    assert [second][1..] == [];
  }

  /** The marks one readable frame adds: the new mark of its decision, if any. */
  function NewMarks(d: Decision, now: DateTime): seq<Stamped>
  {
    if d.MarkNew? then [Stamped(d.m, now)] else []
  }

  /** How one readable frame ends the session, if it does: the `KeyError` of the JSON
      check, or `q`; this loop has no voice fallback. */
  function FrameStop(d: Decision, frame: Frame): Option<SessionEnd>
    requires frame.Captured?
  {
    if d.LookupFailed? then Some(KeyErrorRaised)
    else if frame.quitPressed then Some(QuitPressed)
    else None
  }

  /** The decision on a readable frame once `marks` have been made in the session. */
  function SessionDecision(frame: Frame, ids: seq<string>, names: seq<string>,
                           file0: Option<seq<LogEntry>>, marks: seq<Stamped>): Decision
    requires frame.Captured? && ValidDateTime(frame.now) && |ids| == |names| && DistancesFit(frame.faces, |ids|)
    requires ValidStamps(marks)
  {
    RecognizerDecision(frame.faces, ids, names, Appended(file0, StudentEntries(marks)), MarkedStudents(marks), frame.now)
  }

  /** The session from some frame on, with `marks` made so far and the JSON file as it
      stood when the session began: the loop's marks and the way it ends. */
  function RecognizerRun(frames: seq<Frame>, ids: seq<string>, names: seq<string>,
                         file0: Option<seq<LogEntry>>, marks: seq<Stamped>): (r: (seq<Stamped>, SessionEnd))
    requires |ids| == |names| && FramesFit(frames, |ids|) && ValidStamps(marks)
    ensures r.1 != CameraUnavailable && r.1 != VoiceFallbackRaised
    ensures |marks| <= |r.0| && r.0[..|marks|] == marks
    decreases |frames|
  {
    if frames == [] then (marks, FramesExhausted)
    else if frames[0].Unreadable? then RecognizerRun(frames[1..], ids, names, file0, marks)
    else
      var frame := frames[0];
      var d := SessionDecision(frame, ids, names, file0, marks);
      var marks' := marks + NewMarks(d, frame.now);
      assert marks'[..|marks|] == marks;
      match FrameStop(d, frame)
      case Some(e) => (marks', e)
      case None =>
        var r := RecognizerRun(frames[1..], ids, names, file0, marks');
        assert r.0[..|marks|] == r.0[..|marks'|][..|marks|];
        r
  }

  /** One readable frame of the run: it either ends the session or hands the extended
      marks to the rest of the frames. */
  lemma RecognizerRunCaptured(frames: seq<Frame>, ids: seq<string>, names: seq<string>,
                              file0: Option<seq<LogEntry>>, marks: seq<Stamped>)
    requires |ids| == |names| && FramesFit(frames, |ids|) && ValidStamps(marks)
    requires frames != [] && frames[0].Captured?
    ensures ValidDateTime(frames[0].now) && DistancesFit(frames[0].faces, |ids|) && FramesFit(frames[1..], |ids|)
    ensures var d := SessionDecision(frames[0], ids, names, file0, marks);
      var marks' := marks + NewMarks(d, frames[0].now);
      ValidStamps(marks') &&
      (FrameStop(d, frames[0]).Some? ==> RecognizerRun(frames, ids, names, file0, marks) == (marks', FrameStop(d, frames[0]).value)) &&
      (FrameStop(d, frames[0]).None? ==> RecognizerRun(frames, ids, names, file0, marks) == RecognizerRun(frames[1..], ids, names, file0, marks'))
  {
    var frame := frames[0];
    assert ValidDateTime(frame.now) && DistancesFit(frame.faces, |ids|);
    assert FramesFit(frames[1..], |ids|) by {
      forall i | 0 <= i < |frames| - 1 ensures frames[1..][i] == frames[i + 1] { }
    }
    var d := SessionDecision(frame, ids, names, file0, marks);
    var marks' := marks + NewMarks(d, frame.now);
    assert ValidStamps(marks');
  }

  /** An unreadable frame is skipped. */
  lemma RecognizerRunUnreadable(frames: seq<Frame>, ids: seq<string>, names: seq<string>,
                                file0: Option<seq<LogEntry>>, marks: seq<Stamped>)
    requires |ids| == |names| && FramesFit(frames, |ids|) && ValidStamps(marks)
    requires frames != [] && frames[0].Unreadable?
    ensures FramesFit(frames[1..], |ids|)
    ensures RecognizerRun(frames, ids, names, file0, marks) == RecognizerRun(frames[1..], ids, names, file0, marks)
  {
  }

  /** `start_attendance` on the frames the webcam delivers: nothing when it does not
      open, otherwise the run from the first frame with no marks. */
  function RecognizerSession(webcamOpens: bool, frames: seq<Frame>, students: seq<StudentRow>,
                             file0: Option<seq<LogEntry>>): (r: (seq<Stamped>, SessionEnd))
    requires FramesFit(frames, |students|)
    ensures r.1 == CameraUnavailable <==> !webcamOpens
    ensures !webcamOpens ==> r.0 == []
    ensures r.1 != VoiceFallbackRaised
  {
    if !webcamOpens then ([], CameraUnavailable)
    else RecognizerRun(frames, StudentIds(students), StudentNames(students), file0, [])
  }

  /** One readable frame of the recognizer loop. */
  method RecognizerStep(db: Database, log: LogFile, frame: Frame, ids: seq<string>, names: seq<string>,
                        marks: seq<Stamped>, logged: set<string>,
                        ghost file0: Option<seq<LogEntry>>, ghost rows0: seq<AttendanceRow>)
    returns (marks': seq<Stamped>, logged': set<string>, stop: Option<SessionEnd>)
    requires frame.Captured? && ValidDateTime(frame.now) && DistancesFit(frame.faces, |ids|)
    requires |ids| == |names| == |db.students|
    requires forall k :: 0 <= k < |ids| ==> ids[k] == db.students[k].studentId && names[k] == db.students[k].name
    requires ValidStamps(marks) && DistinctStudents(marks) && KnownMarks(marks, db.students)
    requires logged == MarkedStudents(marks)
    requires db.attendance == rows0 + AttendanceRows(marks)
    requires log.entries == Appended(file0, StudentEntries(marks))
    requires FreshWhenMarked(file0, marks)
    modifies db`attendance, log
    ensures ValidStamps(marks') && DistinctStudents(marks') && KnownMarks(marks', db.students)
    ensures logged' == MarkedStudents(marks')
    ensures db.attendance == rows0 + AttendanceRows(marks')
    ensures log.entries == Appended(file0, StudentEntries(marks'))
    ensures FreshWhenMarked(file0, marks')
    ensures NoSameDayDuplicates(old(log.Contents())) ==> NoSameDayDuplicates(log.Contents())
    ensures var d := SessionDecision(frame, ids, names, file0, marks);
      marks' == marks + NewMarks(d, frame.now) && stop == FrameStop(d, frame)
  {
    marks', logged' := marks, logged;
    var d := RecognizerFrame(frame.faces, ids, names, log, logged, frame.now);
    assert d == SessionDecision(frame, ids, names, file0, marks);
    if d.LookupFailed? {
      return marks', logged', Some(KeyErrorRaised);
    }
    if d.MarkNew? {
      ghost var f, k :| 0 <= f < |frame.faces| && 0 <= k < |ids| &&
        BestMatch(frame.faces[f].distances, CaptureTolerance) == Some(k) && d.m == Mark(ids[k], names[k]);
      marks', logged' := RecordMark(db, log, Stamped(d.m, frame.now), k, marks, logged, file0, rows0);
    }
    if frame.quitPressed {
      return marks', logged', Some(QuitPressed);
    }
    return marks', logged', None;
  }

  /** `start_attendance`: the encodings are loaded before the camera is checked; the
      loop skips unreadable frames and runs until `q`, an exception or the end of the
      modelled frames. A student is marked at most once per session. */
  method RunRecognizerSession(db: Database, log: LogFile, webcamOpens: bool, frames: seq<Frame>)
    returns (marks: seq<Stamped>, end: SessionEnd)
    requires FramesFit(frames, |db.students|)
    modifies db`attendance, log
    ensures (marks, end) == RecognizerSession(webcamOpens, frames, old(db.students), old(log.entries))
    ensures end != VoiceFallbackRaised
    ensures ValidStamps(marks) && DistinctStudents(marks) && KnownMarks(marks, db.students)
    ensures db.attendance == old(db.attendance) + AttendanceRows(marks)
    ensures log.entries == Appended(old(log.entries), StudentEntries(marks))
    ensures FreshWhenMarked(old(log.entries), marks)
    ensures NoSameDayDuplicates(old(log.Contents())) ==> NoSameDayDuplicates(log.Contents())
  {
    var ids, names, encodings := db.LoadAllEncodings();
    if !webcamOpens {
      return [], CameraUnavailable;
    }
    assert ids == StudentIds(db.students) && names == StudentNames(db.students);
    marks, end := RecognizerFrames(db, log, frames, ids, names, log.entries, db.attendance);
  }

  /** The `while True` loop of `start_attendance`, from the first frame with an empty
      session set. */
  method RecognizerFrames(db: Database, log: LogFile, frames: seq<Frame>, ids: seq<string>, names: seq<string>,
                          ghost file0: Option<seq<LogEntry>>, ghost rows0: seq<AttendanceRow>)
    returns (marks: seq<Stamped>, end: SessionEnd)
    requires |ids| == |names| == |db.students| && FramesFit(frames, |ids|)
    requires forall k :: 0 <= k < |ids| ==> ids[k] == db.students[k].studentId && names[k] == db.students[k].name
    requires db.attendance == rows0 && log.entries == file0
    modifies db`attendance, log
    ensures (marks, end) == RecognizerRun(frames, ids, names, file0, [])
    ensures ValidStamps(marks) && DistinctStudents(marks) && KnownMarks(marks, db.students)
    ensures db.attendance == rows0 + AttendanceRows(marks)
    ensures log.entries == Appended(file0, StudentEntries(marks))
    ensures FreshWhenMarked(file0, marks)
    ensures NoSameDayDuplicates(old(log.Contents())) ==> NoSameDayDuplicates(log.Contents())
  {
    ghost var clean := NoSameDayDuplicates(log.Contents());
    ghost var session := RecognizerRun(frames, ids, names, file0, []);
    marks := [];
    var logged: set<string> := {};
    var i := 0;
    assert frames[i..] == frames;
    while i < |frames|
      invariant 0 <= i <= |frames|
      invariant ValidStamps(marks) && DistinctStudents(marks) && KnownMarks(marks, db.students)
      invariant logged == MarkedStudents(marks)
      invariant db.attendance == rows0 + AttendanceRows(marks)
      invariant log.entries == Appended(file0, StudentEntries(marks))
      invariant FreshWhenMarked(file0, marks)
      invariant clean ==> NoSameDayDuplicates(log.Contents())
      invariant FramesFit(frames[i..], |ids|)
      invariant session == RecognizerRun(frames[i..], ids, names, file0, marks)
    {
      RecognizerRunAt(frames, i, ids, names, file0, marks);
      if frames[i].Unreadable? {
        i := i + 1;
        continue;
      }
      var stop;
      marks, logged, stop := RecognizerStep(db, log, frames[i], ids, names, marks, logged, file0, rows0);
      if stop.Some? {
        return marks, stop.value;
      }
      i := i + 1;
    }
    assert frames[i..] == [];
    return marks, FramesExhausted;
  }

  /** The run from frame `i` on, in the terms of the loop's index. */
  lemma RecognizerRunAt(frames: seq<Frame>, i: nat, ids: seq<string>, names: seq<string>,
                        file0: Option<seq<LogEntry>>, marks: seq<Stamped>)
    requires |ids| == |names| && i < |frames| && FramesFit(frames[i..], |ids|) && ValidStamps(marks)
    ensures FramesFit(frames[i + 1..], |ids|)
    ensures frames[i].Unreadable? ==>
      RecognizerRun(frames[i..], ids, names, file0, marks) == RecognizerRun(frames[i + 1..], ids, names, file0, marks)
    ensures frames[i].Captured? ==> ValidDateTime(frames[i].now) && DistancesFit(frames[i].faces, |ids|)
    ensures frames[i].Captured? ==>
      var d := SessionDecision(frames[i], ids, names, file0, marks);
      var marks' := marks + NewMarks(d, frames[i].now);
      ValidStamps(marks') &&
      (FrameStop(d, frames[i]).Some? ==> RecognizerRun(frames[i..], ids, names, file0, marks) == (marks', FrameStop(d, frames[i]).value)) &&
      (FrameStop(d, frames[i]).None? ==> RecognizerRun(frames[i..], ids, names, file0, marks) == RecognizerRun(frames[i + 1..], ids, names, file0, marks'))
  {
    assert frames[i..][1..] == frames[i + 1..] && frames[i..][0] == frames[i];
    if frames[i].Unreadable? {
      RecognizerRunUnreadable(frames[i..], ids, names, file0, marks);
    } else {
      RecognizerRunCaptured(frames[i..], ids, names, file0, marks);
    }
  }
}
