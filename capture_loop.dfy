/** `run_attendance_capture.py`: the stand-alone capture loop whose attendance is keyed
    on the student only, with a voice fallback when a face is seen but not recognised. */
module CaptureLoop {
  import opened Wrappers
  import opened Clock
  import opened Matching
  import opened StudentDb
  import opened JsonLog
  import opened Camera
  import opened StudentSession

  /** What the face loop of one frame decides; it acts on at most one face. */
  datatype Decision = MarkNew(m: Mark) | AlreadyMarked(m: Mark) | NoneRecognised | LookupFailed

  /** The first face whose nearest known encoding is within 0.5 is the only one looked at:
      both "already marked" and a new mark leave the face loop. The JSON check runs
      before the session set is consulted, so its `KeyError` wins. */
  function CaptureDecision(faces: seq<Face>, ids: seq<string>, names: seq<string>,
                           file: Option<seq<LogEntry>>, logged: set<string>, now: DateTime): (d: Decision)
    requires ValidDateTime(now) && |ids| == |names| && DistancesFit(faces, |ids|)
    ensures d == NoneRecognised <==> FirstAcceptedFace(faces, CaptureTolerance).None?
    ensures d.MarkNew? ==> d.m.studentId !in logged && StudentLoggedToday(file, d.m.studentId, now) == Some(false)
    ensures (d.MarkNew? || d.AlreadyMarked?) ==>
      exists k :: 0 <= k < |ids| && d.m == Mark(ids[k], names[k]) && Some(k) == BestMatch(faces[FirstAcceptedFace(faces, CaptureTolerance).value.0].distances, CaptureTolerance)
    ensures d.AlreadyMarked? ==> d.m.studentId in logged || StudentLoggedToday(file, d.m.studentId, now) == Some(true)
    ensures d.LookupFailed? <==>
      FirstAcceptedFace(faces, CaptureTolerance).Some? &&
      StudentLoggedToday(file, ids[FirstAcceptedFace(faces, CaptureTolerance).value.1], now).None?
  {
    match FirstAcceptedFace(faces, CaptureTolerance)
    case None => NoneRecognised
    case Some(p) =>
      var m := Mark(ids[p.1], names[p.1]);
      match StudentLoggedToday(file, m.studentId, now)
      case None => LookupFailed
      case Some(b) => if b || m.studentId in logged then AlreadyMarked(m) else MarkNew(m)
  }

  /** The face loop of one frame, as written: `continue` on an empty distance list or an
      unflagged nearest match, `break` on the first flagged one. */
  method CaptureFrame(faces: seq<Face>, ids: seq<string>, names: seq<string>,
                      log: LogFile, logged: set<string>, now: DateTime) returns (d: Decision)
    requires ValidDateTime(now) && |ids| == |names| && DistancesFit(faces, |ids|)
    ensures d == CaptureDecision(faces, ids, names, log.entries, logged, now)
  {
    var i := 0;
    while i < |faces|
      invariant 0 <= i <= |faces|
      invariant forall g :: 0 <= g < i ==> BestMatch(faces[g].distances, CaptureTolerance).None?
    {
      var distances := faces[i].distances;
      if |distances| == 0 {
        i := i + 1;
        continue;
      }
      var best := ArgMin(distances);
      if CompareFaces(distances, CaptureTolerance)[best] {
        FirstAcceptedFaceAt(faces, i, CaptureTolerance);
        var m := Mark(ids[best], names[best]);
        var seen := log.AlreadyLoggedTodayByStudent(m.studentId, now);
        if seen.None? {
          return LookupFailed;
        }
        if seen.value || m.studentId in logged {
          return AlreadyMarked(m);
        }
        return MarkNew(m);
      }
      i := i + 1;
    }
    return NoneRecognised;
  }

  /** The face the capture loop stops at is the first accepted one. */
  lemma FirstAcceptedFaceAt(faces: seq<Face>, i: nat, tolerance: real)
    requires i < |faces| && BestMatch(faces[i].distances, tolerance).Some?
    requires forall g :: 0 <= g < i ==> BestMatch(faces[g].distances, tolerance).None?
    ensures FirstAcceptedFace(faces, tolerance) == Some((i, BestMatch(faces[i].distances, tolerance).value))
  {
    var r := FirstAcceptedFace(faces, tolerance);
    assert r.Some?;
  }

  /** The marks one readable frame adds: the new mark of its decision, if any. */
  function NewMarks(d: Decision, now: DateTime): seq<Stamped>
  {
    if d.MarkNew? then [Stamped(d.m, now)] else []
  }

  /** How one readable frame ends the session, if it does: the `KeyError` of the JSON
      check, the voice fallback for faces that were seen and not recognised, or `q`. */
  function FrameStop(d: Decision, frame: Frame): Option<SessionEnd>
    requires frame.Captured?
  {
    if d.LookupFailed? then Some(KeyErrorRaised)
    else if d.NoneRecognised? && |frame.faces| > 0 then Some(VoiceFallbackRaised)
    else if frame.quitPressed then Some(QuitPressed)
    else None
  }

  /** The decision on a readable frame once `marks` have been made in the session: the
      JSON file has their records appended and the session set holds their students. */
  function SessionDecision(frame: Frame, ids: seq<string>, names: seq<string>,
                           file0: Option<seq<LogEntry>>, marks: seq<Stamped>): Decision
    requires frame.Captured? && ValidDateTime(frame.now) && |ids| == |names| && DistancesFit(frame.faces, |ids|)
    requires ValidStamps(marks)
  {
    CaptureDecision(frame.faces, ids, names, Appended(file0, StudentEntries(marks)), MarkedStudents(marks), frame.now)
  }

  /** The session from some frame on, with `marks` made so far and the JSON file as it
      stood when the session began: the loop's marks and the way it ends. */
  function CaptureRun(frames: seq<Frame>, ids: seq<string>, names: seq<string>,
                      file0: Option<seq<LogEntry>>, marks: seq<Stamped>): (r: (seq<Stamped>, SessionEnd))
    requires |ids| == |names| && FramesFit(frames, |ids|) && ValidStamps(marks)
    ensures r.1 != CameraUnavailable
    ensures |marks| <= |r.0| && r.0[..|marks|] == marks
    decreases |frames|
  {
    if frames == [] then (marks, FramesExhausted)
    else if frames[0].Unreadable? then CaptureRun(frames[1..], ids, names, file0, marks)
    else
      var frame := frames[0];
      var d := SessionDecision(frame, ids, names, file0, marks);
      var marks' := marks + NewMarks(d, frame.now);
      assert marks'[..|marks|] == marks;
      match FrameStop(d, frame)
      case Some(e) => (marks', e)
      case None =>
        var r := CaptureRun(frames[1..], ids, names, file0, marks');
        assert r.0[..|marks|] == r.0[..|marks'|][..|marks|];
        r
  }

  /** One readable frame of the run: it either ends the session or hands the extended
      marks to the rest of the frames. */
  lemma CaptureRunCaptured(frames: seq<Frame>, ids: seq<string>, names: seq<string>,
                           file0: Option<seq<LogEntry>>, marks: seq<Stamped>)
    requires |ids| == |names| && FramesFit(frames, |ids|) && ValidStamps(marks)
    requires frames != [] && frames[0].Captured?
    ensures ValidDateTime(frames[0].now) && DistancesFit(frames[0].faces, |ids|) && FramesFit(frames[1..], |ids|)
    ensures var d := SessionDecision(frames[0], ids, names, file0, marks);
      var marks' := marks + NewMarks(d, frames[0].now);
      ValidStamps(marks') &&
      (FrameStop(d, frames[0]).Some? ==> CaptureRun(frames, ids, names, file0, marks) == (marks', FrameStop(d, frames[0]).value)) &&
      (FrameStop(d, frames[0]).None? ==> CaptureRun(frames, ids, names, file0, marks) == CaptureRun(frames[1..], ids, names, file0, marks'))
  {
    var frame := frames[0];
    assert ValidDateTime(frame.now) && DistancesFit(frame.faces, |ids|);
    assert FramesFit(frames[1..], |ids|) by {
      forall i | 0 <= i < |frames| - 1 ensures frames[1..][i] == frames[i + 1] { }
    }
    var d := SessionDecision(frame, ids, names, file0, marks);
    var marks' := marks + NewMarks(d, frame.now);
    assert ValidStamps(marks');
  }

  /** An unreadable frame is skipped. */
  lemma CaptureRunUnreadable(frames: seq<Frame>, ids: seq<string>, names: seq<string>,
                             file0: Option<seq<LogEntry>>, marks: seq<Stamped>)
    requires |ids| == |names| && FramesFit(frames, |ids|) && ValidStamps(marks)
    requires frames != [] && frames[0].Unreadable?
    ensures FramesFit(frames[1..], |ids|)
    ensures CaptureRun(frames, ids, names, file0, marks) == CaptureRun(frames[1..], ids, names, file0, marks)
  {
  }

  /** A session ends in the voice fallback only at a readable frame with faces of which
      none was recognised. */
  lemma {:induction false} CaptureRunVoiceFallback(frames: seq<Frame>, ids: seq<string>, names: seq<string>,
                                                   file0: Option<seq<LogEntry>>, marks: seq<Stamped>)
    requires |ids| == |names| && FramesFit(frames, |ids|) && ValidStamps(marks)
    ensures CaptureRun(frames, ids, names, file0, marks).1 == VoiceFallbackRaised ==>
      exists i :: 0 <= i < |frames| && frames[i].Captured? &&
                  |frames[i].faces| > 0 && FirstAcceptedFace(frames[i].faces, CaptureTolerance).None?
    decreases |frames|
  {
    if frames != [] && CaptureRun(frames, ids, names, file0, marks).1 == VoiceFallbackRaised {
      if frames[0].Unreadable? {
        CaptureRunUnreadable(frames, ids, names, file0, marks);
        CaptureRunVoiceFallback(frames[1..], ids, names, file0, marks);
        var i :| 0 <= i < |frames[1..]| && frames[1..][i].Captured? &&
                 |frames[1..][i].faces| > 0 && FirstAcceptedFace(frames[1..][i].faces, CaptureTolerance).None?;
        assert frames[i + 1] == frames[1..][i];
      } else {
        CaptureRunCaptured(frames, ids, names, file0, marks);
        var d := SessionDecision(frames[0], ids, names, file0, marks);
        if FrameStop(d, frames[0]).None? {
          var marks' := marks + NewMarks(d, frames[0].now);
          CaptureRunVoiceFallback(frames[1..], ids, names, file0, marks');
          var i :| 0 <= i < |frames[1..]| && frames[1..][i].Captured? &&
                   |frames[1..][i].faces| > 0 && FirstAcceptedFace(frames[1..][i].faces, CaptureTolerance).None?;
          assert frames[i + 1] == frames[1..][i];
        } else {
          assert d.NoneRecognised?;
        }
      }
    }
  }

  /** `start_attendance_camera` on the frames the webcam delivers: nothing when it does
      not open, otherwise the run from the first frame with no marks. */
  function CaptureSession(webcamOpens: bool, frames: seq<Frame>, students: seq<StudentRow>,
                          file0: Option<seq<LogEntry>>): (r: (seq<Stamped>, SessionEnd))
    requires FramesFit(frames, |students|)
    ensures r.1 == CameraUnavailable <==> !webcamOpens
    ensures !webcamOpens ==> r.0 == []
  {
    if !webcamOpens then ([], CameraUnavailable)
    else CaptureRun(frames, StudentIds(students), StudentNames(students), file0, [])
  }

  /** `start_attendance_camera`: encodings are loaded before the webcam is checked, an
      unreadable frame is skipped, and the loop runs until `q`, an exception or the end
      of the modelled frames. A student is marked at most once per session. */
  method RunCaptureSession(db: Database, log: LogFile, webcamOpens: bool, frames: seq<Frame>)
    returns (marks: seq<Stamped>, end: SessionEnd)
    requires FramesFit(frames, |db.students|)
    modifies db`attendance, log
    ensures (marks, end) == CaptureSession(webcamOpens, frames, old(db.students), old(log.entries))
    ensures end == VoiceFallbackRaised ==>
      exists i :: 0 <= i < |frames| && frames[i].Captured? &&
                  |frames[i].faces| > 0 && FirstAcceptedFace(frames[i].faces, CaptureTolerance).None?
    ensures ValidStamps(marks) && DistinctStudents(marks) && KnownMarks(marks, db.students)
    ensures db.attendance == old(db.attendance) + AttendanceRows(marks)
    ensures log.entries == Appended(old(log.entries), StudentEntries(marks))
    ensures FreshWhenMarked(old(log.entries), marks)
    ensures NoSameDayDuplicates(old(log.Contents())) ==> NoSameDayDuplicates(log.Contents())
  {
    var ids, names, encodings := db.LoadAllEncodings();
    if !webcamOpens {
      return [], CameraUnavailable;
    }
    assert ids == StudentIds(db.students) && names == StudentNames(db.students);
    CaptureRunVoiceFallback(frames, ids, names, log.entries, []);
    marks, end := CaptureFrames(db, log, frames, ids, names, log.entries, db.attendance);
  }

  /** The `while True` loop of `start_attendance_camera`, from the first frame with an
      empty session set. */
  method CaptureFrames(db: Database, log: LogFile, frames: seq<Frame>, ids: seq<string>, names: seq<string>,
                       ghost file0: Option<seq<LogEntry>>, ghost rows0: seq<AttendanceRow>)
    returns (marks: seq<Stamped>, end: SessionEnd)
    requires |ids| == |names| == |db.students| && FramesFit(frames, |ids|)
    requires forall k :: 0 <= k < |ids| ==> ids[k] == db.students[k].studentId && names[k] == db.students[k].name
    requires db.attendance == rows0 && log.entries == file0
    modifies db`attendance, log
    ensures (marks, end) == CaptureRun(frames, ids, names, file0, [])
    ensures ValidStamps(marks) && DistinctStudents(marks) && KnownMarks(marks, db.students)
    ensures db.attendance == rows0 + AttendanceRows(marks)
    ensures log.entries == Appended(file0, StudentEntries(marks))
    ensures FreshWhenMarked(file0, marks)
    ensures NoSameDayDuplicates(old(log.Contents())) ==> NoSameDayDuplicates(log.Contents())
  {
    ghost var clean := NoSameDayDuplicates(log.Contents());
    ghost var session := CaptureRun(frames, ids, names, file0, []);
    marks := [];
    var logged: set<string> := {};
    var i := 0;
    assert frames[i..] == frames;
    while i < |frames|
      invariant 0 <= i <= |frames|
      invariant ValidStamps(marks) && DistinctStudents(marks) && KnownMarks(marks, db.students)
      invariant logged == MarkedStudents(marks)
      invariant db.attendance == rows0 + AttendanceRows(marks)
      invariant log.entries == Appended(file0, StudentEntries(marks))
      invariant FreshWhenMarked(file0, marks)
      invariant clean ==> NoSameDayDuplicates(log.Contents())
      invariant FramesFit(frames[i..], |ids|)
      invariant session == CaptureRun(frames[i..], ids, names, file0, marks)
    {
      CaptureRunAt(frames, i, ids, names, file0, marks);
      if frames[i].Unreadable? {
        i := i + 1;
        continue;
      }
      var stop;
      marks, logged, stop := CaptureStep(db, log, frames[i], ids, names, marks, logged, file0, rows0);
      if stop.Some? {
        return marks, stop.value;
      }
      i := i + 1;
    }
    assert frames[i..] == [];
    return marks, FramesExhausted;
  }

  /** The run from frame `i` on, in the terms of the loop's index. */
  lemma CaptureRunAt(frames: seq<Frame>, i: nat, ids: seq<string>, names: seq<string>,
                     file0: Option<seq<LogEntry>>, marks: seq<Stamped>)
    requires |ids| == |names| && i < |frames| && FramesFit(frames[i..], |ids|) && ValidStamps(marks)
    ensures FramesFit(frames[i + 1..], |ids|)
    ensures frames[i].Unreadable? ==>
      CaptureRun(frames[i..], ids, names, file0, marks) == CaptureRun(frames[i + 1..], ids, names, file0, marks)
    ensures frames[i].Captured? ==> ValidDateTime(frames[i].now) && DistancesFit(frames[i].faces, |ids|)
    ensures frames[i].Captured? ==>
      var d := SessionDecision(frames[i], ids, names, file0, marks);
      var marks' := marks + NewMarks(d, frames[i].now);
      ValidStamps(marks') &&
      (FrameStop(d, frames[i]).Some? ==> CaptureRun(frames[i..], ids, names, file0, marks) == (marks', FrameStop(d, frames[i]).value)) &&
      (FrameStop(d, frames[i]).None? ==> CaptureRun(frames[i..], ids, names, file0, marks) == CaptureRun(frames[i + 1..], ids, names, file0, marks'))
  {
    assert frames[i..][1..] == frames[i + 1..] && frames[i..][0] == frames[i];
    if frames[i].Unreadable? {
      CaptureRunUnreadable(frames[i..], ids, names, file0, marks);
    } else {
      CaptureRunCaptured(frames[i..], ids, names, file0, marks);
    }
  }

  /** One readable frame of the capture loop: the face decision, the mark it may make,
      the voice fallback and the quit key. */
  method CaptureStep(db: Database, log: LogFile, frame: Frame, ids: seq<string>, names: seq<string>,
                     marks: seq<Stamped>, logged: set<string>,
                     ghost file0: Option<seq<LogEntry>>, ghost rows0: seq<AttendanceRow>)
    returns (marks': seq<Stamped>, logged': set<string>, stop: Option<SessionEnd>)
    requires frame.Captured? && ValidDateTime(frame.now) && DistancesFit(frame.faces, |ids|)
    requires |ids| == |names| == |db.students|
    requires forall k :: 0 <= k < |ids| ==> ids[k] == db.students[k].studentId && names[k] == db.students[k].name
    requires ValidStamps(marks) && DistinctStudents(marks) && KnownMarks(marks, db.students)
    requires logged == MarkedStudents(marks)
    requires db.attendance == rows0 + AttendanceRows(marks)
    requires log.entries == Appended(file0, StudentEntries(marks))
    requires FreshWhenMarked(file0, marks)
    modifies db`attendance, log
    ensures ValidStamps(marks') && DistinctStudents(marks') && KnownMarks(marks', db.students)
    ensures logged' == MarkedStudents(marks')
    ensures db.attendance == rows0 + AttendanceRows(marks')
    ensures log.entries == Appended(file0, StudentEntries(marks'))
    ensures FreshWhenMarked(file0, marks')
    ensures NoSameDayDuplicates(old(log.Contents())) ==> NoSameDayDuplicates(log.Contents())
    ensures var d := SessionDecision(frame, ids, names, file0, marks);
      marks' == marks + NewMarks(d, frame.now) && stop == FrameStop(d, frame)
  {
    marks', logged' := marks, logged;
    var faces, now := frame.faces, frame.now;
    var d := CaptureFrame(faces, ids, names, log, logged, now);
    assert d == SessionDecision(frame, ids, names, file0, marks);
    if d.LookupFailed? {
      return marks', logged', Some(KeyErrorRaised);
    }
    if d.MarkNew? {
      ghost var k :| 0 <= k < |ids| && d.m == Mark(ids[k], names[k]);
      marks', logged' := RecordMark(db, log, Stamped(d.m, now), k, marks, logged, file0, rows0);
    }
    if d.NoneRecognised? && |faces| > 0 {
      return marks', logged', Some(VoiceFallbackRaised);
    }
    if frame.quitPressed {
      return marks', logged', Some(QuitPressed);
    }
    return marks', logged', None;
  }
}
