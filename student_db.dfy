/** `database/student_db.py` and the tables of `database/students.db`.
    SQLite tables are sequences of rows in row-id order; `pickle` is the identity
    on encodings. The `units` and `student_units` tables belong to the same
    database file and are created by `gui/manage_units.py`. */
module StudentDb {
  import opened Clock

  /** A face encoding as produced by the face library (128 numbers). */
  type Encoding = seq<real>

  datatype StudentRow = StudentRow(studentId: string, name: string, encoding: Encoding, voicePath: string)
  datatype AttendanceRow = AttendanceRow(studentId: string, name: string, timestamp: string)
  datatype UnitRow = UnitRow(id: int, unitName: string, unitCode: string)
  datatype Assignment = Assignment(studentId: string, unitId: int)
  datatype Table = Students | Attendance | Units | StudentUnits

  /** A recognised student as the capture loops hold it: `known_ids[i]`, `known_names[i]`. */
  datatype Mark = Mark(studentId: string, name: string)

  /** The `UNIQUE` constraint on `students.student_id`. */
  predicate UniqueStudentIds(rows: seq<StudentRow>)
  {
    forall i, j :: 0 <= i < j < |rows| ==> rows[i].studentId != rows[j].studentId
  }

  predicate HasStudent(rows: seq<StudentRow>, sid: string)
  {
    exists i :: 0 <= i < |rows| && rows[i].studentId == sid
  }

  /** `AUTOINCREMENT` unit ids: distinct, positive and below the next id to hand out. */
  predicate UnitIdsBelow(units: seq<UnitRow>, next: int)
  {
    (forall i :: 0 <= i < |units| ==> 1 <= units[i].id < next) &&
    (forall i, j :: 0 <= i < j < |units| ==> units[i].id != units[j].id)
  }

  /** A unit inserted with the next id keeps the ids distinct and below the new next id. */
  lemma UnitIdsBelowAppend(units: seq<UnitRow>, next: int, row: UnitRow)
    requires UnitIdsBelow(units, next) && row.id == next && next >= 1
    ensures UnitIdsBelow(units + [row], next + 1)
  {
    var all := units + [row];
    forall i, j | 0 <= i < j < |all| ensures all[i].id != all[j].id {
      if j < |units| {
        assert all[i] == units[i] && all[j] == units[j];
      } else {
        assert all[i] == units[i];
      }
    }
  }

  /** A mark together with the moment it was logged. */
  datatype Stamped = Stamped(mark: Mark, at: DateTime)

  predicate ValidStamps(marks: seq<Stamped>)
  {
    forall i :: 0 <= i < |marks| ==> ValidDateTime(marks[i].at)
  }

  /** The same marks, all logged at `now`. */
  function StampAll(marks: seq<Mark>, now: DateTime): seq<Stamped>
  {
    seq(|marks|, i requires 0 <= i < |marks| => Stamped(marks[i], now))
  }

  /** The attendance rows that `log_attendance` writes for `marks`, one per mark and in order. */
  function AttendanceRows(marks: seq<Stamped>): seq<AttendanceRow>
    requires ValidStamps(marks)
  {
    seq(|marks|, i requires 0 <= i < |marks| =>
      AttendanceRow(marks[i].mark.studentId, marks[i].mark.name, FormatTimestamp(marks[i].at)))
  }

  /** Rows for marks logged one after the other concatenate. */
  lemma AttendanceRowsAppend(a: seq<Stamped>, b: seq<Stamped>)
    requires ValidStamps(a) && ValidStamps(b)
    ensures ValidStamps(a + b) && AttendanceRows(a + b) == AttendanceRows(a) + AttendanceRows(b)
  {
  }

  /** The `known_ids` column of `load_all_encodings`. */
  function StudentIds(rows: seq<StudentRow>): seq<string>
  {
    seq(|rows|, i requires 0 <= i < |rows| => rows[i].studentId)
  }

  /** The `known_names` column of `load_all_encodings`. */
  function StudentNames(rows: seq<StudentRow>): seq<string>
  {
    seq(|rows|, i requires 0 <= i < |rows| => rows[i].name)
  }

  class Database {
    var tables: set<Table>
    var students: seq<StudentRow>
    var attendance: seq<AttendanceRow>
    var units: seq<UnitRow>
    var studentUnits: seq<Assignment>
    var nextUnitId: int

    ghost predicate Valid()
      reads this
    {
      UniqueStudentIds(students) && UnitIdsBelow(units, nextUnitId) && nextUnitId >= 1
    }

    /** A database file with no tables yet. */
    constructor ()
      ensures Valid()
      ensures tables == {} && students == [] && attendance == [] && units == [] && studentUnits == []
    {
      tables, students, attendance, units, studentUnits := {}, [], [], [], [];
      nextUnitId := 1;
    }

    /** `init_db`: `CREATE TABLE IF NOT EXISTS` for `students` and `attendance`;
        existing rows are kept, so running it again changes nothing. */
    method InitDb()
      modifies this`tables
      ensures tables == old(tables) + {Students, Attendance}
    {
      tables := tables + {Students, Attendance};
    }

    /** `INSERT INTO units (unit_name, unit_code)`: the row gets the next
        `AUTOINCREMENT` id. */
    method InsertUnit(name: string, code: string)
      requires Valid()
      modifies this`units, this`nextUnitId
      ensures Valid()
      ensures units == old(units) + [UnitRow(old(nextUnitId), name, code)] && nextUnitId == old(nextUnitId) + 1
    {
      UnitIdsBelowAppend(units, nextUnitId, UnitRow(nextUnitId, name, code));
      units := units + [UnitRow(nextUnitId, name, code)];
      nextUnitId := nextUnitId + 1;
    }

    /** `log_attendance`: one new row at the end, stamped `%Y-%m-%d %H:%M:%S`; the table
        has no unit column. */
    method LogAttendance(sid: string, name: string, now: DateTime)
      requires ValidDateTime(now)
      modifies this`attendance
      ensures attendance == old(attendance) + [AttendanceRow(sid, name, FormatTimestamp(now))]
    {
      attendance := attendance + [AttendanceRow(sid, name, FormatTimestamp(now))];
    }

    /** `save_student`: an id already present violates the `UNIQUE` constraint; the
        `IntegrityError` is caught and printed, and the table is left as it was. */
    method SaveStudent(sid: string, name: string, encoding: Encoding, voicePath: string)
      requires Valid()
      modifies this`students
      ensures Valid()
      ensures HasStudent(old(students), sid) ==> students == old(students)
      ensures !HasStudent(old(students), sid) ==>
        students == old(students) + [StudentRow(sid, name, encoding, voicePath)]
    {
      var i := 0;
      while i < |students|
        invariant 0 <= i <= |students|
        invariant forall j :: 0 <= j < i ==> students[j].studentId != sid
      {
        if students[i].studentId == sid {
          return;
        }
        i := i + 1;
      }
      students := students + [StudentRow(sid, name, encoding, voicePath)];
    }

    /** `load_all_encodings`: three parallel lists, one entry per row and in row order;
        index `i` of each list comes from row `i`. */
    method LoadAllEncodings() returns (ids: seq<string>, names: seq<string>, encodings: seq<Encoding>)
      ensures |ids| == |students| && |names| == |students| && |encodings| == |students|
      ensures forall i :: 0 <= i < |students| ==>
        ids[i] == students[i].studentId && names[i] == students[i].name &&
        encodings[i] == students[i].encoding
    {
      ids, names, encodings := [], [], [];
      var i := 0;
      while i < |students|
        invariant 0 <= i <= |students|
        invariant |ids| == i && |names| == i && |encodings| == i
        invariant forall j :: 0 <= j < i ==>
          ids[j] == students[j].studentId && names[j] == students[j].name &&
          encodings[j] == students[j].encoding
      {
        var row := students[i];
        ids := ids + [row.studentId];
        names := names + [row.name];
        encodings := encodings + [row.encoding];
        i := i + 1;
      }
    }
  }

  /** Registering a fresh id and loading the encodings again makes the new student the
      last entry of the three parallel lists, with its encoding unchanged. */
  method SaveThenLoad(db: Database, sid: string, name: string, encoding: Encoding, voicePath: string)
    returns (ids: seq<string>, names: seq<string>, encodings: seq<Encoding>)
    requires db.Valid() && !HasStudent(db.students, sid)
    modifies db`students
    ensures db.Valid()
    ensures |ids| == |old(db.students)| + 1 == |names| == |encodings|
    ensures ids[|ids| - 1] == sid && names[|names| - 1] == name && encodings[|encodings| - 1] == encoding
    ensures ids[..|ids| - 1] == seq(|old(db.students)|, i requires 0 <= i < |old(db.students)| => old(db.students)[i].studentId)
  {
    db.SaveStudent(sid, name, encoding, voicePath);
    ids, names, encodings := db.LoadAllEncodings();
  }
}
