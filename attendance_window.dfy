/** `run_attendance.py`: the Qt attendance window, keyed on (student, unit). A camera
    timer calls `update_frame`, which runs recognition on every fifth readable frame; a
    voice timer calls `process_voice_input`. Qt widgets, timers, the camera device, speech
    and drawing are replaced by the flags and inputs below. */
module AttendanceWindow {
  import opened Wrappers
  import opened Seqs
  import opened Text
  import opened Clock
  import opened Matching
  import opened StudentDb
  import opened JsonLog
  import opened Camera

  /** An entry of `logged_students`: `(sid, self.unit_id)`. */
  type Key = (string, Option<int>)

  /** The keys of `marks` under `unit`. */
  function Keys(marks: seq<Mark>, unit: Option<int>): set<Key>
  {
    set i | 0 <= i < |marks| :: (marks[i].studentId, unit)
  }

  /** The marks one recognition pass of `update_frame` makes, face by face: the nearest
      known encoding within 0.5 (first on ties), skipped when the unit-keyed JSON check or
      the session set already has the pair. A mark updates both before the next face. */
  function FrameMarks(faces: seq<Face>, ids: seq<string>, names: seq<string>, unit: Option<int>,
                      file: Option<seq<LogEntry>>, logged: set<Key>, now: DateTime): (r: seq<Mark>)
    requires ValidDateTime(now) && |ids| == |names| && DistancesFit(faces, |ids|)
    ensures |r| <= |faces|
    decreases |faces|
  {
    if faces == [] then []
    else
      match BestMatch(faces[0].distances, CaptureTolerance)
      case None => FrameMarks(faces[1..], ids, names, unit, file, logged, now)
      case Some(k) =>
        var m := Mark(ids[k], names[k]);
        if LoggedToday(file, m.studentId, unit, now) || (m.studentId, unit) in logged then
          FrameMarks(faces[1..], ids, names, unit, file, logged, now)
        else
          [m] + FrameMarks(faces[1..], ids, names, unit, Appended(file, [UnitEntry(m.studentId, m.name, unit, now)]),
                           logged + {(m.studentId, unit)}, now)
  }

  /** A face of a pass that marks nothing: unrecognised, or its pair already marked. */
  lemma FrameMarksSkip(faces: seq<Face>, ids: seq<string>, names: seq<string>, unit: Option<int>,
                       file: Option<seq<LogEntry>>, logged: set<Key>, now: DateTime)
    requires ValidDateTime(now) && |ids| == |names| && DistancesFit(faces, |ids|) && faces != []
    requires BestMatch(faces[0].distances, CaptureTolerance).Some? ==>
      var sid := ids[BestMatch(faces[0].distances, CaptureTolerance).value];
      LoggedToday(file, sid, unit, now) || (sid, unit) in logged
    ensures FrameMarks(faces, ids, names, unit, file, logged, now) == FrameMarks(faces[1..], ids, names, unit, file, logged, now)
  {
  }

  /** A face of a pass that marks its student, who is then in the records and the set. */
  lemma FrameMarksTake(faces: seq<Face>, ids: seq<string>, names: seq<string>, unit: Option<int>,
                       file: Option<seq<LogEntry>>, logged: set<Key>, now: DateTime, k: nat)
    requires ValidDateTime(now) && |ids| == |names| && DistancesFit(faces, |ids|) && faces != []
    requires BestMatch(faces[0].distances, CaptureTolerance) == Some(k)
    requires !LoggedToday(file, ids[k], unit, now) && (ids[k], unit) !in logged
    ensures FrameMarks(faces, ids, names, unit, file, logged, now) ==
      [Mark(ids[k], names[k])] + FrameMarks(faces[1..], ids, names, unit, Appended(file, [UnitEntry(ids[k], names[k], unit, now)]),
                                           logged + {(ids[k], unit)}, now)
  {
  }

  /** Appending records never withdraws a "logged today" answer. */
  lemma LoggedTodayMonotone(file: Option<seq<LogEntry>>, added: seq<LogEntry>, sid: string, unit: Option<int>, now: DateTime)
    requires ValidDateTime(now) && LoggedToday(file, sid, unit, now)
    ensures LoggedToday(Appended(file, added), sid, unit, now)
  {
    var i :| 0 <= i < |file.value| && MatchesUnitDay(file.value[i], sid, unit, FormatDate(now));
    assert Appended(file, added).value[i] == file.value[i];
  }

  /** The student each face of a frame is recognised as, in face order: the nearest
      known encoding when it is within 0.5, and nothing for the other faces. */
  function AcceptedMarks(faces: seq<Face>, ids: seq<string>, names: seq<string>): (r: seq<Mark>)
    requires |ids| == |names| && DistancesFit(faces, |ids|)
    ensures |r| <= |faces|
    decreases |faces|
  {
    if faces == [] then []
    else
      (match BestMatch(faces[0].distances, CaptureTolerance)
       case None => []
       case Some(k) => [Mark(ids[k], names[k])]) + AcceptedMarks(faces[1..], ids, names)
  }

  /** The marks of a pass are recognised faces, in face order. */
  lemma {:induction false} FrameMarksAreAccepted(faces: seq<Face>, ids: seq<string>, names: seq<string>, unit: Option<int>,
                                                file: Option<seq<LogEntry>>, logged: set<Key>, now: DateTime)
    requires ValidDateTime(now) && |ids| == |names| && DistancesFit(faces, |ids|)
    ensures IsSubsequence(FrameMarks(faces, ids, names, unit, file, logged, now), AcceptedMarks(faces, ids, names))
    decreases |faces|
  {
    if faces != [] {
      var tail := faces[1..];
      var a := AcceptedMarks(tail, ids, names);
      match BestMatch(faces[0].distances, CaptureTolerance)
      case None =>
        assert FrameMarks(faces, ids, names, unit, file, logged, now) == FrameMarks(tail, ids, names, unit, file, logged, now);
        assert AcceptedMarks(faces, ids, names) == a;
        FrameMarksAreAccepted(tail, ids, names, unit, file, logged, now);
      case Some(k) =>
        var m := Mark(ids[k], names[k]);
        assert AcceptedMarks(faces, ids, names) == [m] + a;
        assert ([m] + a)[1..] == a;
        if LoggedToday(file, m.studentId, unit, now) || (m.studentId, unit) in logged {
          assert FrameMarks(faces, ids, names, unit, file, logged, now) == FrameMarks(tail, ids, names, unit, file, logged, now);
          FrameMarksAreAccepted(tail, ids, names, unit, file, logged, now);
        } else {
          var file' := Appended(file, [UnitEntry(m.studentId, m.name, unit, now)]);
          var logged' := logged + {(m.studentId, unit)};
          var rest := FrameMarks(tail, ids, names, unit, file', logged', now);
          assert FrameMarks(faces, ids, names, unit, file, logged, now) == [m] + rest;
          FrameMarksAreAccepted(tail, ids, names, unit, file', logged', now);
          assert ([m] + rest)[1..] == rest;
        }
    }
  }

  /** None of `marks` was in the session set or in today's records for the unit. */
  predicate FreshMarks(marks: seq<Mark>, unit: Option<int>, file: Option<seq<LogEntry>>, logged: set<Key>, now: DateTime)
    requires ValidDateTime(now)
  {
    forall i :: 0 <= i < |marks| ==> (marks[i].studentId, unit) !in logged && !LoggedToday(file, marks[i].studentId, unit, now)
  }

  predicate DistinctMarks(marks: seq<Mark>)
  {
    forall i, j :: 0 <= i < j < |marks| ==> marks[i].studentId != marks[j].studentId
  }

  /** A mark whose pair is in the session set differs from every fresh mark after it. */
  lemma DistinctCons(m: Mark, rest: seq<Mark>, unit: Option<int>, file: Option<seq<LogEntry>>, logged: set<Key>,
                     now: DateTime)
    requires ValidDateTime(now) && DistinctMarks(rest)
    requires FreshMarks(rest, unit, file, logged + {(m.studentId, unit)}, now)
    ensures DistinctMarks([m] + rest)
  {
    var r := [m] + rest;
    forall i, j | 0 <= i < j < |r| ensures r[i].studentId != r[j].studentId {
      assert r[j] == rest[j - 1];
      if i > 0 {
        assert r[i] == rest[i - 1];
      }
    }
  }

  /** Student `sid` was already marked (in the set or in today's records) or is among `marks`. */
  predicate Covered(sid: string, unit: Option<int>, file: Option<seq<LogEntry>>, logged: set<Key>, now: DateTime,
                    marks: seq<Mark>)
    requires ValidDateTime(now)
  {
    (sid, unit) in logged || LoggedToday(file, sid, unit, now) || exists i :: 0 <= i < |marks| && marks[i].studentId == sid
  }

  /** No mark of a pass was already in the session set or in today's records for the
      unit. */
  lemma {:induction false} FrameMarksFresh(faces: seq<Face>, ids: seq<string>, names: seq<string>, unit: Option<int>,
                                          file: Option<seq<LogEntry>>, logged: set<Key>, now: DateTime)
    requires ValidDateTime(now) && |ids| == |names| && DistancesFit(faces, |ids|)
    ensures FreshMarks(FrameMarks(faces, ids, names, unit, file, logged, now), unit, file, logged, now)
    decreases |faces|
  {
    if faces != [] {
      var tail := faces[1..];
      match BestMatch(faces[0].distances, CaptureTolerance)
      case None =>
        assert FrameMarks(faces, ids, names, unit, file, logged, now) == FrameMarks(tail, ids, names, unit, file, logged, now);
        FrameMarksFresh(tail, ids, names, unit, file, logged, now);
      case Some(k) =>
        var m := Mark(ids[k], names[k]);
        if LoggedToday(file, m.studentId, unit, now) || (m.studentId, unit) in logged {
          assert FrameMarks(faces, ids, names, unit, file, logged, now) == FrameMarks(tail, ids, names, unit, file, logged, now);
          FrameMarksFresh(tail, ids, names, unit, file, logged, now);
        } else {
          var e := UnitEntry(m.studentId, m.name, unit, now);
          var file' := Appended(file, [e]);
          var logged' := logged + {(m.studentId, unit)};
          var rest := FrameMarks(tail, ids, names, unit, file', logged', now);
          assert FrameMarks(faces, ids, names, unit, file, logged, now) == [m] + rest;
          FrameMarksFresh(tail, ids, names, unit, file', logged', now);
          forall i | 0 <= i < |rest| ensures !LoggedToday(file, rest[i].studentId, unit, now) {
            if LoggedToday(file, rest[i].studentId, unit, now) {
              LoggedTodayMonotone(file, [e], rest[i].studentId, unit, now);
            }
          }
          assert forall i :: 0 < i < |[m] + rest| ==> ([m] + rest)[i] == rest[i - 1];
        }
    }
  }

  /** A pass marks each student at most once. */
  lemma {:induction false} FrameMarksDistinct(faces: seq<Face>, ids: seq<string>, names: seq<string>, unit: Option<int>,
                                             file: Option<seq<LogEntry>>, logged: set<Key>, now: DateTime)
    requires ValidDateTime(now) && |ids| == |names| && DistancesFit(faces, |ids|)
    ensures DistinctMarks(FrameMarks(faces, ids, names, unit, file, logged, now))
    decreases |faces|
  {
    if faces != [] {
      var tail := faces[1..];
      match BestMatch(faces[0].distances, CaptureTolerance)
      case None =>
        assert FrameMarks(faces, ids, names, unit, file, logged, now) == FrameMarks(tail, ids, names, unit, file, logged, now);
        FrameMarksDistinct(tail, ids, names, unit, file, logged, now);
      case Some(k) =>
        var m := Mark(ids[k], names[k]);
        if LoggedToday(file, m.studentId, unit, now) || (m.studentId, unit) in logged {
          assert FrameMarks(faces, ids, names, unit, file, logged, now) == FrameMarks(tail, ids, names, unit, file, logged, now);
          FrameMarksDistinct(tail, ids, names, unit, file, logged, now);
        } else {
          var file' := Appended(file, [UnitEntry(m.studentId, m.name, unit, now)]);
          var logged' := logged + {(m.studentId, unit)};
          var rest := FrameMarks(tail, ids, names, unit, file', logged', now);
          assert FrameMarks(faces, ids, names, unit, file, logged, now) == [m] + rest;
          FrameMarksDistinct(tail, ids, names, unit, file', logged', now);
          FrameMarksFresh(tail, ids, names, unit, file', logged', now);
          DistinctCons(m, rest, unit, file', logged, now);
        }
    }
  }

  /** No recognised face is lost: its student is marked by the pass unless the pair was
      already in the session set or in today's records for the unit. */
  lemma {:induction false} FrameMarksComplete(faces: seq<Face>, ids: seq<string>, names: seq<string>, unit: Option<int>,
                                             file: Option<seq<LogEntry>>, logged: set<Key>, now: DateTime, j: nat)
    requires ValidDateTime(now) && |ids| == |names| && DistancesFit(faces, |ids|)
    requires j < |AcceptedMarks(faces, ids, names)|
    ensures Covered(AcceptedMarks(faces, ids, names)[j].studentId, unit, file, logged, now,
                    FrameMarks(faces, ids, names, unit, file, logged, now))
    decreases |faces|
  {
    var tail := faces[1..];
    var a := AcceptedMarks(tail, ids, names);
    var sid := AcceptedMarks(faces, ids, names)[j].studentId;
    match BestMatch(faces[0].distances, CaptureTolerance)
    case None =>
      assert AcceptedMarks(faces, ids, names) == a;
      FrameMarksComplete(tail, ids, names, unit, file, logged, now, j);
    case Some(k) =>
      var m := Mark(ids[k], names[k]);
      assert AcceptedMarks(faces, ids, names) == [m] + a;
      if LoggedToday(file, m.studentId, unit, now) || (m.studentId, unit) in logged {
        if j > 0 {
          assert a[j - 1].studentId == sid;
          FrameMarksComplete(tail, ids, names, unit, file, logged, now, j - 1);
        }
      } else {
        var e := UnitEntry(m.studentId, m.name, unit, now);
        var file' := Appended(file, [e]);
        var logged' := logged + {(m.studentId, unit)};
        var rest := FrameMarks(tail, ids, names, unit, file', logged', now);
        var r := [m] + rest;
        assert FrameMarks(faces, ids, names, unit, file, logged, now) == r;
        if j > 0 && sid != m.studentId {
          assert a[j - 1].studentId == sid;
          FrameMarksComplete(tail, ids, names, unit, file', logged', now, j - 1);
          SaveLeavesOthers(file, e, sid, unit, now);
          if exists i :: 0 <= i < |rest| && rest[i].studentId == sid {
            var i :| 0 <= i < |rest| && rest[i].studentId == sid;
            assert r[i + 1] == rest[i];
          }
        } else {
          assert r[0] == m;
        }
      }
  }

  /** Two marks in a row extend the batches written under `unit` at `now`. */
  lemma BatchAppend(marked: seq<Mark>, m: Mark, unit: Option<int>, now: DateTime, file0: Option<seq<LogEntry>>,
                    rows0: seq<AttendanceRow>)
    requires ValidDateTime(now)
    ensures ValidStamps(StampAll(marked, now)) && ValidStamps(StampAll(marked + [m], now))
    ensures Appended(Appended(file0, UnitEntries(StampAll(marked, now), unit)), [UnitEntry(m.studentId, m.name, unit, now)]) ==
            Appended(file0, UnitEntries(StampAll(marked + [m], now), unit))
    ensures rows0 + AttendanceRows(StampAll(marked, now)) + [AttendanceRow(m.studentId, m.name, FormatTimestamp(now))] ==
            rows0 + AttendanceRows(StampAll(marked + [m], now))
  {
    var a, b := StampAll(marked, now), StampAll(marked + [m], now);
    assert b == a + [Stamped(m, now)];
    assert UnitEntries(b, unit) == UnitEntries(a, unit) + [UnitEntry(m.studentId, m.name, unit, now)];
    assert AttendanceRows(b) == AttendanceRows(a) + [AttendanceRow(m.studentId, m.name, FormatTimestamp(now))];
    AppendedTwice(file0, UnitEntries(a, unit), [UnitEntry(m.studentId, m.name, unit, now)]);
  }

  /** The SQL lookup of `process_voice_input`: the first student (in row order) whose
      name or id contains the recognised text. SQLite's `LIKE` ignores ASCII case. */
  function VoiceLookup(students: seq<StudentRow>, text: string): (r: Option<Mark>)
    ensures r.Some? <==> exists i :: 0 <= i < |students| && VoiceMatches(students[i], text)
    ensures r.Some? ==>
      exists i :: 0 <= i < |students| && VoiceMatches(students[i], text) &&
                  r.value == Mark(students[i].studentId, students[i].name) &&
                  forall j :: 0 <= j < i ==> !VoiceMatches(students[j], text)
    decreases |students|
  {
    if students == [] then None
    else if VoiceMatches(students[0], text) then Some(Mark(students[0].studentId, students[0].name))
    else VoiceLookup(students[1..], text)
  }

  /** What one voice tick marks: the looked-up student, unless the pair is already in the
      session set or in today's records for the unit; nothing when the tick is not
      delivered, nothing was heard, or no student matches. */
  function VoiceMarks(ticks: bool, text: Option<string>, students: seq<StudentRow>, unit: Option<int>,
                      file: Option<seq<LogEntry>>, logged: set<Key>, now: DateTime): (r: seq<Mark>)
    requires ValidDateTime(now)
    ensures |r| <= 1
    ensures r != [] <==>
      ticks && text.Some? && text.value != [] && VoiceLookup(students, text.value).Some? &&
      !LoggedToday(file, VoiceLookup(students, text.value).value.studentId, unit, now) &&
      (VoiceLookup(students, text.value).value.studentId, unit) !in logged
    ensures r != [] ==> r[0] == VoiceLookup(students, text.value).value
  {
    if !ticks || text.None? || text.value == [] then []
    else
      match VoiceLookup(students, text.value)
      case None => []
      case Some(m) =>
        if LoggedToday(file, m.studentId, unit, now) || (m.studentId, unit) in logged then [] else [m]
  }

  /** `LOWER(name) LIKE '%text%' OR student_id LIKE '%text%'`. */
  predicate VoiceMatches(row: StudentRow, text: string)
    ensures VoiceMatches(row, text) ==> |text| <= |row.name| || |text| <= |row.studentId|
  {
    Contains(Lower(row.name), Lower(text)) || Contains(Lower(row.studentId), Lower(text))
  }

  /** `'%' || '' || '%'` matches every row: heard text that is empty picks the first
      student, and the case of the heard text never matters. */
  lemma VoiceMatchesEmptyAndCase(row: StudentRow, text: string)
    ensures VoiceMatches(row, "")
    ensures VoiceMatches(row, text) == VoiceMatches(row, Lower(text))
  {
    ContainsEmpty(Lower(row.name));
    assert Lower("") == "";
    LowerIdempotent(text);
  }

  class Window {
    const db: Database
    const log: LogFile
    /** The `id` data of the unit combo box, in `units` row order. */
    const unitChoices: seq<int>
    var isRunning: bool
    var loggedStudents: set<Key>
    var unitId: Option<int>
    /** `self.video is not None`, and whether that capture is open and unreleased. */
    var hasVideo: bool
    var cameraOpen: bool
    /** Whether the camera timer and the voice timer are started and not stopped. */
    var frameTimerActive: bool
    var voiceTimerActive: bool
    var frameCount: int
    var knownIds: seq<string>
    var knownNames: seq<string>
    var knownEncodings: seq<Encoding>

    ghost predicate Valid()
      reads this
    {
      |knownIds| == |knownNames| == |knownEncodings| && (cameraOpen ==> hasVideo)
    }

    /** `__init__`: the combo box lists every unit; nothing is running yet. */
    constructor (db: Database, log: LogFile)
      ensures Valid()
      ensures this.db == db && this.log == log
      ensures |unitChoices| == |db.units| && forall i :: 0 <= i < |db.units| ==> unitChoices[i] == db.units[i].id
      ensures !isRunning && loggedStudents == {} && unitId == None
      ensures !hasVideo && !cameraOpen && !frameTimerActive && !voiceTimerActive
    {
      this.db, this.log := db, log;
      unitChoices := seq(|db.units|, i requires 0 <= i < |db.units| reads db => db.units[i].id);
      isRunning, loggedStudents, unitId := false, {}, None;
      hasVideo, cameraOpen, frameTimerActive, voiceTimerActive := false, false, false, false;
      frameCount := 0;
      knownIds, knownNames, knownEncodings := [], [], [];
    }

    /** `start_camera`: `selected` is the combo box's current data (`None` when it is
        empty) and `opens` whether `isOpened()` succeeds. The unit is taken before the
        guard; a unit id of `None` or `0` fails `not self.unit_id`. No failure path
        touches `is_running`. */
    method StartCamera(selected: Option<int>, opens: bool)
      requires Valid()
      modifies this
      ensures Valid()
      ensures unitId == selected
      ensures loggedStudents == old(loggedStudents) && voiceTimerActive == old(voiceTimerActive)
      ensures selected.None? || selected == Some(0) ==>
        isRunning == old(isRunning) && hasVideo == old(hasVideo) && cameraOpen == old(cameraOpen) &&
        frameTimerActive == old(frameTimerActive) && frameCount == old(frameCount) && knownIds == old(knownIds)
      ensures selected.Some? && selected != Some(0) && !opens ==>
        hasVideo && !cameraOpen && isRunning == old(isRunning) && frameTimerActive == old(frameTimerActive) &&
        frameCount == old(frameCount) && knownIds == old(knownIds)
      ensures selected.Some? && selected != Some(0) && opens ==>
        hasVideo && |knownIds| == |db.students| &&
        (forall i :: 0 <= i < |db.students| ==>
           knownIds[i] == db.students[i].studentId && knownNames[i] == db.students[i].name &&
           knownEncodings[i] == db.students[i].encoding)
      ensures selected.Some? && selected != Some(0) && opens && db.students == [] ==>
        !cameraOpen && isRunning == old(isRunning) && frameTimerActive == old(frameTimerActive) && frameCount == old(frameCount)
      ensures selected.Some? && selected != Some(0) && opens && db.students != [] ==>
        cameraOpen && isRunning && frameCount == 0 && frameTimerActive
    {
      unitId := selected;
      if selected.None? || selected.value == 0 {
        return;
      }
      hasVideo := true;
      cameraOpen := opens;
      if !opens {
        return;
      }
      knownIds, knownNames, knownEncodings := db.LoadAllEncodings();
      if |knownEncodings| == 0 {
        cameraOpen := false;
        return;
      }
      isRunning := true;
      frameCount := 0;
      frameTimerActive := true;
    }

    /** One camera-timer tick: `frame` is what `video.read()` returns (`None` when `ret` is
        false). Only a readable frame advances the counter, and only every fifth one is
        recognised. */
    method UpdateFrame(frame: Option<seq<Face>>, now: DateTime) returns (ticked: bool, ghost marked: seq<Mark>)
      requires Valid() && ValidDateTime(now)
      requires frame.Some? ==> DistancesFit(frame.value, |knownIds|)
      modifies this, db`attendance, log
      ensures Valid()
      ensures isRunning == old(isRunning) && unitId == old(unitId) && hasVideo == old(hasVideo)
      ensures cameraOpen == old(cameraOpen) && frameTimerActive == old(frameTimerActive)
      ensures voiceTimerActive == old(voiceTimerActive)
      ensures knownIds == old(knownIds) && knownNames == old(knownNames) && knownEncodings == old(knownEncodings)
      ensures ticked == (old(frameTimerActive) && old(isRunning) && old(hasVideo) && old(cameraOpen) && frame.Some?)
      ensures frameCount == (if ticked then old(frameCount) + 1 else old(frameCount))
      ensures marked == (if ticked && frameCount % 5 == 0
                         then FrameMarks(frame.value, knownIds, knownNames, unitId, old(log.entries), old(loggedStudents), now)
                         else [])
      ensures loggedStudents == old(loggedStudents) + Keys(marked, unitId)
      ensures db.attendance == old(db.attendance) + AttendanceRows(StampAll(marked, now))
      ensures log.entries == Appended(old(log.entries), UnitEntries(StampAll(marked, now), unitId))
      ensures NoSameDayDuplicates(old(log.Contents())) ==> NoSameDayDuplicates(log.Contents())
    {
      ticked, marked := false, [];
      EmptyBatch(unitId, now);
      if !frameTimerActive || !isRunning || !hasVideo {
        return;
      }
      if !cameraOpen || frame.None? {
        return;
      }
      ticked := true;
      frameCount := frameCount + 1;
      if frameCount % 5 == 0 {
        marked := RecognizeFaces(frame.value, now);
      }
    }

    /** The face loop of `update_frame`; `marked` names the faces it marks, in order. */
    method RecognizeFaces(faces: seq<Face>, now: DateTime) returns (ghost marked: seq<Mark>)
      requires Valid() && ValidDateTime(now) && DistancesFit(faces, |knownIds|)
      modifies this`loggedStudents, db`attendance, log
      ensures marked == FrameMarks(faces, knownIds, knownNames, unitId, old(log.entries), old(loggedStudents), now)
      ensures loggedStudents == old(loggedStudents) + Keys(marked, unitId)
      ensures db.attendance == old(db.attendance) + AttendanceRows(StampAll(marked, now))
      ensures log.entries == Appended(old(log.entries), UnitEntries(StampAll(marked, now), unitId))
      ensures NoSameDayDuplicates(old(log.Contents())) ==> NoSameDayDuplicates(log.Contents())
    {
      marked := [];
      ghost var file0, rows0, logged0 := log.entries, db.attendance, loggedStudents;
      ghost var all := FrameMarks(faces, knownIds, knownNames, unitId, file0, logged0, now);
      var i := 0;
      while i < |faces|
        invariant 0 <= i <= |faces|
        invariant all == marked + FrameMarks(faces[i..], knownIds, knownNames, unitId, log.entries, loggedStudents, now)
        invariant loggedStudents == logged0 + Keys(marked, unitId)
        invariant db.attendance == rows0 + AttendanceRows(StampAll(marked, now))
        invariant log.entries == Appended(file0, UnitEntries(StampAll(marked, now), unitId))
        invariant NoSameDayDuplicates(file0.GetOr([])) ==> NoSameDayDuplicates(log.Contents())
      {
        marked := RecognizeFace(faces[i..], now, all, marked, file0, rows0, logged0);
        assert faces[i..][1..] == faces[i + 1..];
        i := i + 1;
      }
      assert faces[i..] == [];
      assert marked + [] == marked;
    }

    /** The first face of `faces` in a pass of `update_frame`, stated against the marks
        of the pass so far. */
    method RecognizeFace(faces: seq<Face>, now: DateTime, ghost all: seq<Mark>, ghost marked: seq<Mark>,
                         ghost file0: Option<seq<LogEntry>>, ghost rows0: seq<AttendanceRow>, ghost logged0: set<Key>)
      returns (ghost marked': seq<Mark>)
      requires Valid() && ValidDateTime(now) && DistancesFit(faces, |knownIds|) && faces != []
      requires all == marked + FrameMarks(faces, knownIds, knownNames, unitId, log.entries, loggedStudents, now)
      requires loggedStudents == logged0 + Keys(marked, unitId)
      requires db.attendance == rows0 + AttendanceRows(StampAll(marked, now))
      requires log.entries == Appended(file0, UnitEntries(StampAll(marked, now), unitId))
      requires NoSameDayDuplicates(file0.GetOr([])) ==> NoSameDayDuplicates(log.Contents())
      modifies this`loggedStudents, db`attendance, log
      ensures all == marked' + FrameMarks(faces[1..], knownIds, knownNames, unitId, log.entries, loggedStudents, now)
      ensures loggedStudents == logged0 + Keys(marked', unitId)
      ensures db.attendance == rows0 + AttendanceRows(StampAll(marked', now))
      ensures log.entries == Appended(file0, UnitEntries(StampAll(marked', now), unitId))
      ensures NoSameDayDuplicates(file0.GetOr([])) ==> NoSameDayDuplicates(log.Contents())
    {
      marked' := marked;
      var distances := faces[0].distances;
      if |distances| == 0 {
        FrameMarksSkip(faces, knownIds, knownNames, unitId, log.entries, loggedStudents, now);
        return;
      }
      var best := ArgMin(distances);
      if !CompareFaces(distances, CaptureTolerance)[best] {
        FrameMarksSkip(faces, knownIds, knownNames, unitId, log.entries, loggedStudents, now);
        return;
      }
      var sid, name := knownIds[best], knownNames[best];
      var seen := log.AlreadyLoggedToday(sid, unitId, now);
      if seen || (sid, unitId) in loggedStudents {
        FrameMarksSkip(faces, knownIds, knownNames, unitId, log.entries, loggedStudents, now);
        return;
      }
      FrameMarksTake(faces, knownIds, knownNames, unitId, log.entries, loggedStudents, now, best);
      ghost var rest := FrameMarks(faces[1..], knownIds, knownNames, unitId,
                                   Appended(log.entries, [UnitEntry(sid, name, unitId, now)]),
                                   loggedStudents + {(sid, unitId)}, now);
      ConcatAssoc(marked, [Mark(sid, name)], rest);
      marked' := MarkInBatch(sid, name, now, marked, file0, rows0, logged0);
    }

    /** One new mark inside a pass of `update_frame`, stated against the marks of the
        pass so far. */
    method MarkInBatch(sid: string, name: string, now: DateTime, ghost marked: seq<Mark>,
                       ghost file0: Option<seq<LogEntry>>, ghost rows0: seq<AttendanceRow>, ghost logged0: set<Key>)
      returns (ghost marked': seq<Mark>)
      requires ValidDateTime(now) && !LoggedToday(log.entries, sid, unitId, now)
      requires loggedStudents == logged0 + Keys(marked, unitId)
      requires db.attendance == rows0 + AttendanceRows(StampAll(marked, now))
      requires log.entries == Appended(file0, UnitEntries(StampAll(marked, now), unitId))
      requires NoSameDayDuplicates(file0.GetOr([])) ==> NoSameDayDuplicates(log.Contents())
      modifies this`loggedStudents, db`attendance, log
      ensures marked' == marked + [Mark(sid, name)]
      ensures loggedStudents == old(loggedStudents) + {(sid, unitId)}
      ensures log.entries == Appended(old(log.entries), [UnitEntry(sid, name, unitId, now)])
      ensures loggedStudents == logged0 + Keys(marked', unitId)
      ensures db.attendance == rows0 + AttendanceRows(StampAll(marked', now))
      ensures log.entries == Appended(file0, UnitEntries(StampAll(marked', now), unitId))
      ensures NoSameDayDuplicates(file0.GetOr([])) ==> NoSameDayDuplicates(log.Contents())
    {
      BatchAppend(marked, Mark(sid, name), unitId, now, file0, rows0);
      KeysAppend(marked, Mark(sid, name), unitId);
      MarkPair(sid, name, now);
      marked' := marked + [Mark(sid, name)];
    }

    /** The mark shared by both paths: `log_attendance`, `save_to_json_log` with the
        current unit, and `logged_students.add((sid, self.unit_id))`. */
    method MarkPair(sid: string, name: string, now: DateTime)
      requires ValidDateTime(now)
      modifies this`loggedStudents, db`attendance, log
      ensures loggedStudents == old(loggedStudents) + {(sid, unitId)}
      ensures db.attendance == old(db.attendance) + [AttendanceRow(sid, name, FormatTimestamp(now))]
      ensures log.entries == Appended(old(log.entries), [UnitEntry(sid, name, unitId, now)])
      ensures !LoggedToday(old(log.entries), sid, unitId, now) && NoSameDayDuplicates(old(log.Contents())) ==>
        NoSameDayDuplicates(log.Contents())
    {
      if !LoggedToday(log.entries, sid, unitId, now) && NoSameDayDuplicates(log.Contents()) {
        GuardedSaveKeepsNoDuplicates(log.entries, sid, name, unitId, now);
      }
      db.LogAttendance(sid, name, now);
      log.SaveToJsonLog(sid, name, unitId, now);
      loggedStudents := loggedStudents + {(sid, unitId)};
    }

    /** `start_voice_attendance`: the same unit guard, then running with the voice timer. */
    method StartVoiceAttendance(selected: Option<int>)
      requires Valid()
      modifies this`unitId, this`isRunning, this`voiceTimerActive
      ensures Valid()
      ensures unitId == selected
      ensures selected.None? || selected == Some(0) ==>
        isRunning == old(isRunning) && voiceTimerActive == old(voiceTimerActive)
      ensures selected.Some? && selected != Some(0) ==> isRunning && voiceTimerActive
    {
      unitId := selected;
      if selected.None? || selected.value == 0 {
        return;
      }
      isRunning := true;
      voiceTimerActive := true;
    }

    /** One voice-timer tick with the recognised `text` (`None` when nothing was heard).
        The found student is marked under the current unit unless the JSON check or the
        session set already has the pair; then the pair is in the set. */
    method ProcessVoiceInput(text: Option<string>, now: DateTime) returns (ghost marked: seq<Mark>)
      requires ValidDateTime(now)
      modifies this`loggedStudents, db`attendance, log
      ensures marked == VoiceMarks(old(voiceTimerActive && isRunning), text, db.students, unitId,
                                   old(log.entries), old(loggedStudents), now)
      ensures loggedStudents == old(loggedStudents) + Keys(marked, unitId)
      ensures db.attendance == old(db.attendance) + AttendanceRows(StampAll(marked, now))
      ensures log.entries == Appended(old(log.entries), UnitEntries(StampAll(marked, now), unitId))
      ensures NoSameDayDuplicates(old(log.Contents())) ==> NoSameDayDuplicates(log.Contents())
    {
      marked := [];
      EmptyBatch(unitId, now);
      if !voiceTimerActive || !isRunning {
        return;
      }
      if text.None? || text.value == [] {
        return;
      }
      var found := VoiceLookup(db.students, text.value);
      if found.None? {
        return;
      }
      var sid, name := found.value.studentId, found.value.name;
      var seen := log.AlreadyLoggedToday(sid, unitId, now);
      if !(seen || (sid, unitId) in loggedStudents) {
        BatchAppend([], Mark(sid, name), unitId, now, log.entries, db.attendance);
        KeysAppend([], Mark(sid, name), unitId);
        MarkPair(sid, name, now);
        marked := [Mark(sid, name)];
        assert [] + marked == marked;
      }
    }

    /** `stop_attendance`: both timers stop, the capture is released (the object is kept)
        and the session set is emptied. */
    method StopAttendance()
      requires Valid()
      modifies this
      ensures Valid()
      ensures !cameraOpen
      ensures !isRunning && loggedStudents == {} && !frameTimerActive && !voiceTimerActive
      ensures hasVideo == old(hasVideo) && unitId == old(unitId) && frameCount == old(frameCount)
      ensures knownIds == old(knownIds) && knownNames == old(knownNames) && knownEncodings == old(knownEncodings)
    {
      isRunning := false;
      frameTimerActive := false;
      voiceTimerActive := false;
      if hasVideo {
        cameraOpen := false;
      }
      loggedStudents := {};
    }

    /** `closeEvent`: stops the camera timer and releases an open capture, but neither
        clears `logged_students` nor stops the voice timer. */
    method Close()
      requires Valid()
      modifies this
      ensures Valid()
      ensures !isRunning && !frameTimerActive && !cameraOpen
      ensures loggedStudents == old(loggedStudents) && voiceTimerActive == old(voiceTimerActive)
      ensures hasVideo == old(hasVideo) && unitId == old(unitId) && frameCount == old(frameCount)
      ensures knownIds == old(knownIds) && knownNames == old(knownNames) && knownEncodings == old(knownEncodings)
    {
      isRunning := false;
      frameTimerActive := false;
      if hasVideo && cameraOpen {
        cameraOpen := false;
      }
    }
  }

  /** A tick that marks nobody writes nothing. */
  lemma EmptyBatch(unit: Option<int>, now: DateTime)
    requires ValidDateTime(now)
    ensures Keys([], unit) == {} && StampAll([], now) == [] && AttendanceRows([]) == [] && UnitEntries([], unit) == []
  {
  }

  lemma KeysAppend(marked: seq<Mark>, m: Mark, unit: Option<int>)
    ensures Keys(marked + [m], unit) == Keys(marked, unit) + {(m.studentId, unit)}
  {
    var all := marked + [m];
    forall x | x in Keys(all, unit) ensures x in Keys(marked, unit) + {(m.studentId, unit)} {
      var i :| 0 <= i < |all| && x == (all[i].studentId, unit);
      if i < |marked| {
        assert all[i] == marked[i];
      }
    }
    forall x | x in Keys(marked, unit) ensures x in Keys(all, unit) {
      var i :| 0 <= i < |marked| && x == (marked[i].studentId, unit);
      assert all[i] == marked[i];
    }
    assert all[|marked|] == m;
  }
}
