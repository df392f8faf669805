/** The bookkeeping the two stand-alone loops (`run_attendance_capture.py` and
    `run_recognizer.py`) share: a mark writes a database row and a student-only JSON
    record, and the session set `logged_students` holds every student marked so far. */
module StudentSession {
  import opened Wrappers
  import opened Seqs
  import opened Clock
  import opened StudentDb
  import opened JsonLog

  /** `mark_attendance` of `run_attendance_capture.py`, and lines 89-90 of `run_recognizer.py`:
      a database row and a student-only JSON record for the same mark. */
  method MarkAttendance(db: Database, log: LogFile, m: Mark, now: DateTime)
    requires ValidDateTime(now)
    modifies db`attendance, log
    ensures db.attendance == old(db.attendance) + [AttendanceRow(m.studentId, m.name, FormatTimestamp(now))]
    ensures log.entries == Appended(old(log.entries), [StudentEntry(m.studentId, m.name, now)])
  {
    db.LogAttendance(m.studentId, m.name, now);
    log.SaveStudentToJsonLog(m.studentId, m.name, now);
  }

  /** The students the session has marked. */
  function MarkedStudents(marks: seq<Stamped>): set<string>
  {
    set j | 0 <= j < |marks| :: marks[j].mark.studentId
  }

  predicate DistinctStudents(marks: seq<Stamped>)
  {
    forall j, k :: 0 <= j < k < |marks| ==> marks[j].mark.studentId != marks[k].mark.studentId
  }

  /** Every mark names a registered student with that student's name. */
  predicate KnownMarks(marks: seq<Stamped>, students: seq<StudentRow>)
  {
    forall j :: 0 <= j < |marks| ==>
      exists r :: 0 <= r < |students| && marks[j].mark == Mark(students[r].studentId, students[r].name)
  }

  /** Each mark was made while the JSON log, as it stood then, held no record of that
      student on that day. */
  predicate FreshWhenMarked(file: Option<seq<LogEntry>>, marks: seq<Stamped>)
    requires ValidStamps(marks)
  {
    forall j :: 0 <= j < |marks| ==>
      StudentLoggedToday(Appended(file, StudentEntries(marks[..j])), marks[j].mark.studentId, marks[j].at) == Some(false)
  }

  /** A mark followed by `logged_students.add(sid)`, for a student the JSON check and the
      session set both reported as not yet marked. */
  method RecordMark(db: Database, log: LogFile, s: Stamped, ghost k: nat, marks: seq<Stamped>, logged: set<string>,
                    ghost file0: Option<seq<LogEntry>>, ghost rows0: seq<AttendanceRow>)
    returns (marks': seq<Stamped>, logged': set<string>)
    requires ValidDateTime(s.at)
    requires k < |db.students| && s.mark == Mark(db.students[k].studentId, db.students[k].name)
    requires s.mark.studentId !in logged
    requires StudentLoggedToday(log.entries, s.mark.studentId, s.at) == Some(false)
    requires ValidStamps(marks) && DistinctStudents(marks) && KnownMarks(marks, db.students)
    requires logged == MarkedStudents(marks)
    requires db.attendance == rows0 + AttendanceRows(marks)
    requires log.entries == Appended(file0, StudentEntries(marks))
    requires FreshWhenMarked(file0, marks)
    modifies db`attendance, log
    ensures marks' == marks + [s]
    ensures ValidStamps(marks') && DistinctStudents(marks') && KnownMarks(marks', db.students)
    ensures logged' == MarkedStudents(marks')
    ensures db.attendance == rows0 + AttendanceRows(marks')
    ensures log.entries == Appended(file0, StudentEntries(marks'))
    ensures FreshWhenMarked(file0, marks')
    ensures NoSameDayDuplicates(old(log.Contents())) ==> NoSameDayDuplicates(log.Contents())
  {
    if NoSameDayDuplicates(log.Contents()) {
      GuardedStudentSaveKeepsNoDuplicates(log.entries, s.mark.studentId, s.mark.name, s.at);
    }
    AppendMark(file0, rows0, marks, s);
    ExtendMarks(marks, s, db.students, k);
    MarkAttendance(db, log, s.mark, s.at);
    marks' := marks + [s];
    logged' := logged + {s.mark.studentId};
  }

  /** A mark of a registered student not yet in the session keeps the marks distinct and known. */
  lemma ExtendMarks(marks: seq<Stamped>, s: Stamped, students: seq<StudentRow>, k: nat)
    requires DistinctStudents(marks) && KnownMarks(marks, students)
    requires s.mark.studentId !in MarkedStudents(marks)
    requires k < |students| && s.mark == Mark(students[k].studentId, students[k].name)
    ensures DistinctStudents(marks + [s]) && KnownMarks(marks + [s], students)
    ensures MarkedStudents(marks + [s]) == MarkedStudents(marks) + {s.mark.studentId}
  {
    var all := marks + [s];
    forall j | 0 <= j < |all|
      ensures exists r :: 0 <= r < |students| && all[j].mark == Mark(students[r].studentId, students[r].name)
    {
      if j < |marks| {
        assert all[j] == marks[j];
      } else {
        assert all[j].mark == Mark(students[k].studentId, students[k].name);
      }
    }
    forall j | 0 <= j < |marks| ensures marks[j].mark.studentId != s.mark.studentId {
      assert marks[j].mark.studentId in MarkedStudents(marks);
    }
    assert MarkedStudents(all) == MarkedStudents(marks) + {s.mark.studentId} by {
      forall x | x in MarkedStudents(all) ensures x in MarkedStudents(marks) + {s.mark.studentId} {
        var j :| 0 <= j < |all| && all[j].mark.studentId == x;
        if j < |marks| {
          assert all[j] == marks[j];
        }
      }
      forall x | x in MarkedStudents(marks) ensures x in MarkedStudents(all) {
        var j :| 0 <= j < |marks| && marks[j].mark.studentId == x;
        assert all[j] == marks[j];
      }
      assert all[|marks|] == s;
    }
  }

  /** One more mark extends the combined rows, records and freshness facts. */
  lemma AppendMark(file: Option<seq<LogEntry>>, rows0: seq<AttendanceRow>, marks: seq<Stamped>, s: Stamped)
    requires ValidStamps(marks) && ValidDateTime(s.at)
    requires FreshWhenMarked(file, marks)
    requires StudentLoggedToday(Appended(file, StudentEntries(marks)), s.mark.studentId, s.at) == Some(false)
    ensures ValidStamps(marks + [s])
    ensures rows0 + AttendanceRows(marks) + [AttendanceRow(s.mark.studentId, s.mark.name, FormatTimestamp(s.at))] ==
            rows0 + AttendanceRows(marks + [s])
    ensures Appended(Appended(file, StudentEntries(marks)), [StudentEntry(s.mark.studentId, s.mark.name, s.at)]) ==
            Appended(file, StudentEntries(marks + [s]))
    ensures FreshWhenMarked(file, marks + [s])
  {
    RowsAppendOne(rows0, marks, s);
    EntriesAppendOne(file, marks, s);
    FreshAfterMark(file, marks, s);
  }

  lemma RowsAppendOne(rows0: seq<AttendanceRow>, marks: seq<Stamped>, s: Stamped)
    requires ValidStamps(marks) && ValidDateTime(s.at)
    ensures ValidStamps(marks + [s])
    ensures rows0 + AttendanceRows(marks) + [AttendanceRow(s.mark.studentId, s.mark.name, FormatTimestamp(s.at))] ==
            rows0 + AttendanceRows(marks + [s])
  {
    var row := AttendanceRow(s.mark.studentId, s.mark.name, FormatTimestamp(s.at));
    assert ValidStamps(marks + [s]);
    assert AttendanceRows(marks + [s]) == AttendanceRows(marks) + [row];
    ConcatAssoc(rows0, AttendanceRows(marks), [row]);
  }

  lemma EntriesAppendOne(file: Option<seq<LogEntry>>, marks: seq<Stamped>, s: Stamped)
    requires ValidStamps(marks) && ValidDateTime(s.at)
    ensures ValidStamps(marks + [s])
    ensures Appended(Appended(file, StudentEntries(marks)), [StudentEntry(s.mark.studentId, s.mark.name, s.at)]) ==
            Appended(file, StudentEntries(marks + [s]))
  {
    var e := StudentEntry(s.mark.studentId, s.mark.name, s.at);
    assert ValidStamps(marks + [s]);
    assert StudentEntries(marks + [s]) == StudentEntries(marks) + [e];
    AppendedTwice(file, StudentEntries(marks), [e]);
  }

  lemma FreshAfterMark(file: Option<seq<LogEntry>>, marks: seq<Stamped>, s: Stamped)
    requires ValidStamps(marks) && ValidDateTime(s.at)
    requires FreshWhenMarked(file, marks)
    requires StudentLoggedToday(Appended(file, StudentEntries(marks)), s.mark.studentId, s.at) == Some(false)
    ensures ValidStamps(marks + [s]) && FreshWhenMarked(file, marks + [s])
  {
    var all := marks + [s];
    assert ValidStamps(all);
    forall j | 0 <= j < |all|
      ensures StudentLoggedToday(Appended(file, StudentEntries(all[..j])), all[j].mark.studentId, all[j].at) == Some(false)
    {
      if j < |marks| {
        assert all[..j] == marks[..j] && all[j] == marks[j];
      } else {
        assert all[..j] == marks && all[j] == s;
      }
    }
  }
}
