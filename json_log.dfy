/** `attendance_logs.json`: the JSON array of attendance records kept next to the
    database, as `run_attendance.py` (unit-keyed records) and
    `run_attendance_capture.py` (student-only records) read and append it. */
module JsonLog {
  import opened Wrappers
  import opened Text
  import opened Clock
  import opened StudentDb

  /** One JSON object of the array; a key that is missing is `None`. */
  datatype LogEntry = LogEntry(studentId: Option<string>, name: Option<string>,
                               unitId: Option<int>, timestamp: Option<string>)

  /** The record `save_to_json_log(student_id, name, unit_id)` writes. A `None` unit is
      written as JSON `null`, which `log.get("unit_id")` reads back like a missing key. */
  function UnitEntry(sid: string, name: string, unit: Option<int>, now: DateTime): LogEntry
    requires ValidDateTime(now)
  {
    LogEntry(Some(sid), Some(name), unit, Some(FormatTimestamp(now)))
  }

  /** The record of the capture revision's `save_to_json_log(student_id, name)`: no unit key. */
  function StudentEntry(sid: string, name: string, now: DateTime): LogEntry
    requires ValidDateTime(now)
  {
    LogEntry(Some(sid), Some(name), None, Some(FormatTimestamp(now)))
  }

  /** The test inside the unit-keyed `already_logged_today`: `log.get` never raises, and a
      missing timestamp reads as `""`, which starts with no date. */
  predicate MatchesUnitDay(e: LogEntry, sid: string, unit: Option<int>, today: string)
    ensures MatchesUnitDay(e, sid, unit, today) && today != [] ==> e.timestamp.Some?
  {
    e.studentId == Some(sid) && e.unitId == unit && StartsWith(e.timestamp.GetOr(""), today)
  }

  /** The answer of the unit-keyed `already_logged_today(student_id, unit_id)` on day `now`;
      an absent file answers `False`. */
  predicate LoggedToday(file: Option<seq<LogEntry>>, sid: string, unit: Option<int>, now: DateTime)
    requires ValidDateTime(now)
    ensures LoggedToday(file, sid, unit, now) ==>
      file.Some? &&
      exists i :: 0 <= i < |file.value| && file.value[i].studentId == Some(sid) && file.value[i].unitId == unit &&
        file.value[i].timestamp.Some? && |file.value[i].timestamp.value| >= 10 &&
        file.value[i].timestamp.value[..10] == FormatDate(now)
  {
    file.Some? && exists i :: 0 <= i < |file.value| && MatchesUnitDay(file.value[i], sid, unit, FormatDate(now))
  }

  /** A record on which `log["student_id"] == sid and log["timestamp"].startswith(today)`
      raises a `KeyError`: it has no `student_id`, or it is the student's and has no `timestamp`. */
  predicate LookupRaises(e: LogEntry, sid: string)
  {
    e.studentId.None? || (e.studentId == Some(sid) && e.timestamp.None?)
  }

  /** A record on which the same test is `True`. */
  predicate LookupHits(e: LogEntry, sid: string, today: string)
  {
    e.studentId == Some(sid) && e.timestamp.Some? && StartsWith(e.timestamp.value, today)
  }

  /** The loop passes over the first `n` records: none raises and none is a hit. */
  predicate PassedBefore(entries: seq<LogEntry>, n: nat, sid: string, today: string)
    requires n <= |entries|
  {
    forall j :: 0 <= j < n ==> !LookupRaises(entries[j], sid) && !LookupHits(entries[j], sid, today)
  }

  lemma PassedBeforeCons(entries: seq<LogEntry>, n: nat, sid: string, today: string)
    requires 0 < n <= |entries|
    ensures PassedBefore(entries, n, sid, today) <==>
      !LookupRaises(entries[0], sid) && !LookupHits(entries[0], sid, today) &&
      PassedBefore(entries[1..], n - 1, sid, today)
  {
    if PassedBefore(entries[1..], n - 1, sid, today) {
      forall j | 1 <= j < n ensures !LookupRaises(entries[j], sid) && !LookupHits(entries[j], sid, today) {
        assert entries[j] == entries[1..][j - 1];
      }
    }
  }

  /** The capture revision's loop over the records, which indexes with `log["..."]`:
      `None` is the `KeyError` of a record without `student_id` met before any match, or
      of a record with the student's id but no `timestamp`. */
  function StudentLookup(entries: seq<LogEntry>, sid: string, today: string): (r: Option<bool>)
    ensures r == Some(true) ==>
      exists i :: 0 <= i < |entries| && entries[i].studentId == Some(sid) &&
                  entries[i].timestamp.Some? && StartsWith(entries[i].timestamp.value, today)
    ensures r == Some(false) ==> forall i :: 0 <= i < |entries| ==>
      entries[i].studentId.Some? && (entries[i].studentId == Some(sid) ==>
        entries[i].timestamp.Some? && !StartsWith(entries[i].timestamp.value, today))
    decreases |entries|
  {
    if entries == [] then Some(false)
    else
      var e := entries[0];
      if e.studentId.None? then None
      else if e.studentId.value == sid && e.timestamp.None? then None
      else if e.studentId.value == sid && StartsWith(e.timestamp.value, today) then Some(true)
      else StudentLookup(entries[1..], sid, today)
  }

  /** The three outcomes of the student-only scan, by the first record it does not
      pass over: a `KeyError` there, a `True` there, or `False` when it passes over all. */
  lemma {:induction false} StudentLookupCases(entries: seq<LogEntry>, sid: string, today: string)
    ensures StudentLookup(entries, sid, today).None? <==>
      exists i :: 0 <= i < |entries| && LookupRaises(entries[i], sid) && PassedBefore(entries, i, sid, today)
    ensures StudentLookup(entries, sid, today) == Some(true) <==>
      exists i :: 0 <= i < |entries| && LookupHits(entries[i], sid, today) && PassedBefore(entries, i, sid, today)
    ensures StudentLookup(entries, sid, today) == Some(false) <==> PassedBefore(entries, |entries|, sid, today)
    decreases |entries|
  {
    if entries != [] {
      var e, tail := entries[0], entries[1..];
      StudentLookupCases(tail, sid, today);
      forall i | 1 <= i <= |entries|
        ensures PassedBefore(entries, i, sid, today) <==>
          !LookupRaises(e, sid) && !LookupHits(e, sid, today) && PassedBefore(tail, i - 1, sid, today)
      {
        PassedBeforeCons(entries, i, sid, today);
      }
      assert PassedBefore(entries, 0, sid, today);
      if !LookupRaises(e, sid) && !LookupHits(e, sid, today) {
        if exists i :: 0 <= i < |tail| && LookupRaises(tail[i], sid) && PassedBefore(tail, i, sid, today) {
          var i :| 0 <= i < |tail| && LookupRaises(tail[i], sid) && PassedBefore(tail, i, sid, today);
          assert entries[i + 1] == tail[i];
        }
        if exists i :: 0 <= i < |tail| && LookupHits(tail[i], sid, today) && PassedBefore(tail, i, sid, today) {
          var i :| 0 <= i < |tail| && LookupHits(tail[i], sid, today) && PassedBefore(tail, i, sid, today);
          assert entries[i + 1] == tail[i];
        }
        forall i | 0 <= i < |entries| && PassedBefore(entries, i, sid, today) && i > 0
          ensures PassedBefore(tail, i - 1, sid, today) && entries[i] == tail[i - 1]
        {
        }
      }
    }
  }

  /** Every record carries the two keys the student-only check indexes. */
  predicate WellKeyed(entries: seq<LogEntry>)
  {
    forall i :: 0 <= i < |entries| ==> entries[i].studentId.Some? && entries[i].timestamp.Some?
  }

  /** On well-formed records the student-only check never raises, and it answers whether
      the student has a record today, whatever its unit. */
  lemma {:induction false} StudentLookupWellKeyed(entries: seq<LogEntry>, sid: string, today: string)
    requires WellKeyed(entries)
    ensures StudentLookup(entries, sid, today).Some?
    ensures StudentLookup(entries, sid, today) == Some(true) <==>
      exists i :: 0 <= i < |entries| && entries[i].studentId == Some(sid) && StartsWith(entries[i].timestamp.value, today)
    decreases |entries|
  {
    if entries != [] {
      StudentLookupWellKeyed(entries[1..], sid, today);
    }
  }

  /** The records after appending `added`: an absent file is created from `[]`. */
  function Appended(file: Option<seq<LogEntry>>, added: seq<LogEntry>): Option<seq<LogEntry>>
  {
    if added == [] then file else Some(file.GetOr([]) + added)
  }

  /** No two records share a student, a unit and a calendar date: what the guards in
      front of every append are meant to keep. */
  predicate NoSameDayDuplicates(entries: seq<LogEntry>)
  {
    forall i, j :: 0 <= i < j < |entries| ==> !SameRecordDay(entries[i], entries[j])
  }

  predicate SameRecordDay(a: LogEntry, b: LogEntry)
  {
    a.studentId.Some? && a.studentId == b.studentId && a.unitId == b.unitId &&
    a.timestamp.Some? && b.timestamp.Some? && |a.timestamp.value| >= 10 && |b.timestamp.value| >= 10 &&
    a.timestamp.value[..10] == b.timestamp.value[..10]
  }

  /** After a record for (`sid`, `unit`) at `now`, the unit-keyed check answers `True`
      for that student and unit on the same day. */
  lemma LoggedAfterSave(file: Option<seq<LogEntry>>, sid: string, name: string, unit: Option<int>,
                        now: DateTime, today: DateTime)
    requires ValidDateTime(now) && ValidDateTime(today) && SameDay(now, today)
    ensures LoggedToday(Appended(file, [UnitEntry(sid, name, unit, now)]), sid, unit, today)
  {
    var c := file.GetOr([]) + [UnitEntry(sid, name, unit, now)];
    TimestampOnDay(now, today);
    assert MatchesUnitDay(c[|c| - 1], sid, unit, FormatDate(today));
  }

  /** A record changes the unit-keyed answer only for its own student, unit and day. */
  lemma SaveLeavesOthers(file: Option<seq<LogEntry>>, e: LogEntry, sid: string, unit: Option<int>, today: DateTime)
    requires ValidDateTime(today)
    requires e.studentId != Some(sid) || e.unitId != unit || !StartsWith(e.timestamp.GetOr(""), FormatDate(today))
    ensures LoggedToday(Appended(file, [e]), sid, unit, today) == LoggedToday(file, sid, unit, today)
  {
    var c := file.GetOr([]) + [e];
    if LoggedToday(Appended(file, [e]), sid, unit, today) {
      var i :| 0 <= i < |c| && MatchesUnitDay(c[i], sid, unit, FormatDate(today));
      assert i < |c| - 1;
      assert file.Some? && file.value[i] == c[i];
    }
    if LoggedToday(file, sid, unit, today) {
      var i :| 0 <= i < |file.value| && MatchesUnitDay(file.value[i], sid, unit, FormatDate(today));
      assert c[i] == file.value[i];
    }
  }

  /** A student-only record (no unit key) never satisfies the unit-keyed check of a
      selected unit, so sessions of the two revisions do not see each other's records. */
  lemma StudentEntryInvisibleToUnitCheck(file: Option<seq<LogEntry>>, sid: string, name: string, now: DateTime,
                                         other: string, unit: int, today: DateTime)
    requires ValidDateTime(now) && ValidDateTime(today)
    ensures LoggedToday(Appended(file, [StudentEntry(sid, name, now)]), other, Some(unit), today) ==
            LoggedToday(file, other, Some(unit), today)
  {
    SaveLeavesOthers(file, StudentEntry(sid, name, now), other, Some(unit), today);
  }

  /** The date prefix of a stored stamp decides the unit-keyed day test. */
  lemma StampPrefix(s: string, now: DateTime)
    requires ValidDateTime(now)
    ensures |s| >= 10 && s[..10] == FormatTimestamp(now)[..10] <==> StartsWith(s, FormatDate(now))
  {
    assert FormatTimestamp(now)[..10] == FormatDate(now);
  }

  /** Appending a unit-keyed record only when the check answered `False` keeps the
      records free of same-day duplicates. */
  lemma {:induction false} GuardedSaveKeepsNoDuplicates(file: Option<seq<LogEntry>>, sid: string, name: string,
                                                       unit: Option<int>, now: DateTime)
    requires ValidDateTime(now)
    requires NoSameDayDuplicates(file.GetOr([])) && !LoggedToday(file, sid, unit, now)
    ensures NoSameDayDuplicates(Appended(file, [UnitEntry(sid, name, unit, now)]).value)
  {
    var old_ := file.GetOr([]);
    var e := UnitEntry(sid, name, unit, now);
    var c := old_ + [e];
    forall i, j | 0 <= i < j < |c| ensures !SameRecordDay(c[i], c[j]) {
      if j < |old_| {
        assert c[i] == old_[i] && c[j] == old_[j];
      } else {
        assert c[i] == old_[i] && c[j] == e;
        StampPrefix(old_[i].timestamp.GetOr(""), now);
        assert file.Some? ==> !MatchesUnitDay(file.value[i], sid, unit, FormatDate(now));
      }
    }
  }

  /** The same for the capture revision: a record is appended only when the student-only
      check answered `False`, which also rules out same-day records under any unit. */
  lemma {:induction false} GuardedStudentSaveKeepsNoDuplicates(file: Option<seq<LogEntry>>, sid: string, name: string,
                                                              now: DateTime)
    requires ValidDateTime(now)
    requires NoSameDayDuplicates(file.GetOr([]))
    requires StudentLookup(file.GetOr([]), sid, FormatDate(now)) == Some(false)
    ensures NoSameDayDuplicates(Appended(file, [StudentEntry(sid, name, now)]).value)
  {
    var old_ := file.GetOr([]);
    var e := StudentEntry(sid, name, now);
    var c := old_ + [e];
    forall i, j | 0 <= i < j < |c| ensures !SameRecordDay(c[i], c[j]) {
      if j < |old_| {
        assert c[i] == old_[i] && c[j] == old_[j];
      } else {
        assert c[i] == old_[i] && c[j] == e;
        StampPrefix(old_[i].timestamp.GetOr(""), now);
      }
    }
  }

  /** The unit-keyed records written for `marks`, in order, all under `unit`. */
  function UnitEntries(marks: seq<Stamped>, unit: Option<int>): seq<LogEntry>
    requires ValidStamps(marks)
  {
    seq(|marks|, i requires 0 <= i < |marks| =>
      UnitEntry(marks[i].mark.studentId, marks[i].mark.name, unit, marks[i].at))
  }

  /** The student-only records written for `marks`, in order. */
  function StudentEntries(marks: seq<Stamped>): seq<LogEntry>
    requires ValidStamps(marks)
  {
    seq(|marks|, i requires 0 <= i < |marks| =>
      StudentEntry(marks[i].mark.studentId, marks[i].mark.name, marks[i].at))
  }

  /** Two appends are one append of both batches. */
  lemma AppendedTwice(file: Option<seq<LogEntry>>, a: seq<LogEntry>, b: seq<LogEntry>)
    ensures Appended(Appended(file, a), b) == Appended(file, a + b)
  {
    assert a + [] == a && [] + b == b;
    assert file.GetOr([]) + a + b == file.GetOr([]) + (a + b);
  }

  /** The student-only `already_logged_today` on the file: `False` for an absent file,
      `None` for a `KeyError`. */
  function StudentLoggedToday(file: Option<seq<LogEntry>>, sid: string, now: DateTime): (r: Option<bool>)
    requires ValidDateTime(now)
    ensures file.None? ==> r == Some(false)
    ensures r == Some(true) ==> file.Some?
    ensures file.Some? && WellKeyed(file.value) ==> r.Some?
  {
    if file.None? then Some(false)
    else if WellKeyed(file.value) then
      StudentLookupWellKeyed(file.value, sid, FormatDate(now));
      StudentLookup(file.value, sid, FormatDate(now))
    else StudentLookup(file.value, sid, FormatDate(now))
  }

  /** The file `attendance_logs.json`; `entries` is `None` while the file does not exist. */
  class LogFile {
    var entries: Option<seq<LogEntry>>

    constructor (initial: Option<seq<LogEntry>>)
      ensures entries == initial
    {
      entries := initial;
    }

    /** `logs` as `save_to_json_log` loads it: `[]` for an absent file. */
    function Contents(): seq<LogEntry>
      reads this
    {
      entries.GetOr([])
    }

    /** The unit-keyed `already_logged_today`: a scan that stops at the first match. */
    method AlreadyLoggedToday(sid: string, unit: Option<int>, now: DateTime) returns (logged: bool)
      requires ValidDateTime(now)
      ensures logged == LoggedToday(entries, sid, unit, now)
    {
      if entries.None? {
        return false;
      }
      var logs := entries.value;
      var today := FormatDate(now);
      var i := 0;
      while i < |logs|
        invariant 0 <= i <= |logs|
        invariant forall j :: 0 <= j < i ==> !MatchesUnitDay(logs[j], sid, unit, today)
      {
        var e := logs[i];
        if e.studentId == Some(sid) && e.unitId == unit && StartsWith(e.timestamp.GetOr(""), today) {
          return true;
        }
        i := i + 1;
      }
      return false;
    }

    /** The capture revision's `already_logged_today(student_id)`; `None` is a `KeyError`. */
    method AlreadyLoggedTodayByStudent(sid: string, now: DateTime) returns (r: Option<bool>)
      requires ValidDateTime(now)
      ensures r == StudentLoggedToday(entries, sid, now)
    {
      if entries.None? {
        return Some(false);
      }
      var logs := entries.value;
      var today := FormatDate(now);
      var i := 0;
      while i < |logs|
        invariant 0 <= i <= |logs|
        invariant StudentLookup(logs, sid, today) == StudentLookup(logs[i..], sid, today)
      {
        assert logs[i..][1..] == logs[i + 1..];
        var e := logs[i];
        if e.studentId.None? {
          return None;
        }
        if e.studentId.value == sid {
          if e.timestamp.None? {
            return None;
          }
          if StartsWith(e.timestamp.value, today) {
            return Some(true);
          }
        }
        i := i + 1;
      }
      return Some(false);
    }

    /** The unit-keyed `save_to_json_log`: read (or start from `[]`), append, write back. */
    method SaveToJsonLog(sid: string, name: string, unit: Option<int>, now: DateTime)
      requires ValidDateTime(now)
      modifies this
      ensures entries == Appended(old(entries), [UnitEntry(sid, name, unit, now)])
    {
      var logs := Contents();
      logs := logs + [UnitEntry(sid, name, unit, now)];
      entries := Some(logs);
    }

    /** The capture revision's `save_to_json_log(student_id, name)`. */
    method SaveStudentToJsonLog(sid: string, name: string, now: DateTime)
      requires ValidDateTime(now)
      modifies this
      ensures entries == Appended(old(entries), [StudentEntry(sid, name, now)])
    {
      var logs := Contents();
      logs := logs + [StudentEntry(sid, name, now)];
      entries := Some(logs);
    }
  }
}
