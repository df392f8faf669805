/** `gui/view_attendance.py`: the attendance of the students assigned to a unit,
    newest first, with a search box. */
module ViewAttendance {
  import opened Wrappers
  import opened Seqs
  import opened Text
  import opened StudentDb
  import opened ManageUnits

  /** One row of the query: `(attendance.student_id, students.name, attendance.timestamp)`. */
  datatype LogRow = LogRow(studentId: string, name: string, timestamp: string)

  /** SQLite's `BINARY` collation on `TEXT`: code-point order, a proper prefix first. */
  predicate TextLeq(a: string, b: string)
    decreases |a|
  {
    a == [] || (b != [] && (a[0] < b[0] || (a[0] == b[0] && TextLeq(a[1..], b[1..]))))
  }

  lemma {:induction false} TextLeqTotal(a: string, b: string)
    ensures TextLeq(a, b) || TextLeq(b, a)
    decreases |a|
  {
    if a != [] && b != [] && a[0] == b[0] {
      TextLeqTotal(a[1..], b[1..]);
    }
  }

  lemma {:induction false} TextLeqTransitive(a: string, b: string, c: string)
    requires TextLeq(a, b) && TextLeq(b, c)
    ensures TextLeq(a, c)
    decreases |a|
  {
    if a != [] && a[0] == b[0] && b[0] == c[0] {
      TextLeqTransitive(a[1..], b[1..], c[1..]);
    }
  }

  /** `ORDER BY attendance.timestamp DESC`, stated on neighbours. */
  predicate NewestFirst(rows: seq<LogRow>)
  {
    forall i :: 0 <= i < |rows| - 1 ==> TextLeq(rows[i + 1].timestamp, rows[i].timestamp)
  }

  /** Neighbour order gives order between any two rows. */
  lemma {:induction false} NewestFirstPairwise(rows: seq<LogRow>, i: nat, j: nat)
    requires NewestFirst(rows) && i <= j < |rows|
    ensures TextLeq(rows[j].timestamp, rows[i].timestamp)
    decreases j - i
  {
    if i == j {
      TextLeqRefl(rows[i].timestamp);
    } else {
      NewestFirstPairwise(rows, i + 1, j);
      TextLeqTransitive(rows[j].timestamp, rows[i + 1].timestamp, rows[i].timestamp);
    }
  }

  lemma {:induction false} TextLeqRefl(a: string)
    ensures TextLeq(a, a)
    decreases |a|
  {
    if a != [] {
      TextLeqRefl(a[1..]);
    }
  }

  /** Places `x` before the first row that is not newer than it. */
  function Insert(x: LogRow, rows: seq<LogRow>): (r: seq<LogRow>)
    requires NewestFirst(rows)
    ensures NewestFirst(r) && multiset(r) == multiset(rows) + multiset{x}
    ensures r != [] && (rows == [] || r[0] == x || r[0] == rows[0])
    decreases |rows|
  {
    if rows == [] || TextLeq(rows[0].timestamp, x.timestamp) then
      ConsNewestFirst(x, rows);
      [x] + rows
    else
      TextLeqTotal(rows[0].timestamp, x.timestamp);
      NewestFirstTail(rows);
      var rest := Insert(x, rows[1..]);
      assert |rows| > 1 ==> rows[1..][0] == rows[1];
      ConsNewestFirst(rows[0], rest);
      assert rows == [rows[0]] + rows[1..];
      [rows[0]] + rest
  }

  /** A row at least as new as the first keeps the order when put in front. */
  lemma ConsNewestFirst(x: LogRow, rows: seq<LogRow>)
    requires NewestFirst(rows) && (rows == [] || TextLeq(rows[0].timestamp, x.timestamp))
    ensures NewestFirst([x] + rows)
  {
    var r := [x] + rows;
    forall i | 0 <= i < |r| - 1 ensures TextLeq(r[i + 1].timestamp, r[i].timestamp) {
      if i > 0 {
        assert r[i] == rows[i - 1] && r[i + 1] == rows[i];
      }
    }
  }

  lemma NewestFirstTail(rows: seq<LogRow>)
    requires NewestFirst(rows) && rows != []
    ensures NewestFirst(rows[1..])
  {
    var t := rows[1..];
    forall i | 0 <= i < |t| - 1 ensures TextLeq(t[i + 1].timestamp, t[i].timestamp) {
      assert t[i] == rows[i + 1] && t[i + 1] == rows[i + 2];
    }
  }

  /** The rows in timestamp order, newest first; rows with equal timestamps keep
      their relative order reversed, one possible answer to a query whose tie order
      SQLite leaves open. */
  function SortNewestFirst(rows: seq<LogRow>): (r: seq<LogRow>)
    ensures NewestFirst(r) && multiset(r) == multiset(rows)
    decreases |rows|
  {
    if rows == [] then []
    else
      assert rows == [rows[0]] + rows[1..];
      Insert(rows[0], SortNewestFirst(rows[1..]))
  }

  /** The names joined to an attendance row: one per `students` row with its id. */
  function NamesOf(students: seq<StudentRow>, sid: string): (r: seq<string>)
    decreases |students|
  {
    if students == [] then []
    else (if students[0].studentId == sid then [students[0].name] else []) + NamesOf(students[1..], sid)
  }

  lemma {:induction false} NamesOfMembers(students: seq<StudentRow>, sid: string, n: string)
    ensures n in NamesOf(students, sid) <==>
      exists i :: 0 <= i < |students| && students[i].studentId == sid && students[i].name == n
    decreases |students|
  {
    if students != [] {
      NamesOfMembers(students[1..], sid, n);
      if exists i :: 1 <= i < |students| && students[i].studentId == sid && students[i].name == n {
        var i :| 1 <= i < |students| && students[i].studentId == sid && students[i].name == n;
        assert students[1..][i - 1] == students[i];
      }
      if exists i :: 0 <= i < |students[1..]| && students[1..][i].studentId == sid && students[1..][i].name == n {
        var i :| 0 <= i < |students[1..]| && students[1..][i].studentId == sid && students[1..][i].name == n;
        assert students[i + 1] == students[1..][i];
      }
    }
  }

  function Repeat(x: LogRow, n: nat): (r: seq<LogRow>)
    ensures forall y :: y in r <==> n > 0 && y == x
  {
    var r := seq(n, _ => x);
    assert n > 0 ==> r[0] == x;
    r
  }

  /** The rows for one attendance row: one per joined name, repeated once per
      assignment row of the student to the unit. */
  function JoinOne(a: AttendanceRow, names: seq<string>, copies: nat): (r: seq<LogRow>)
    ensures forall y :: y in r <==>
      copies > 0 && y.studentId == a.studentId && y.timestamp == a.timestamp && y.name in names
    decreases |names|
  {
    if names == [] then []
    else Repeat(LogRow(a.studentId, names[0], a.timestamp), copies) + JoinOne(a, names[1..], copies)
  }

  /** The two joins of `load_attendance` before ordering, attendance row by
      attendance row. */
  function Joined(attendance: seq<AttendanceRow>, students: seq<StudentRow>, assignments: seq<Assignment>,
                  unitId: int): seq<LogRow>
    decreases |attendance|
  {
    if attendance == [] then []
    else
      var a := attendance[0];
      JoinOne(a, NamesOf(students, a.studentId), multiset(AssignedTo(assignments, unitId))[a.studentId]) +
      Joined(attendance[1..], students, assignments, unitId)
  }

  /** `y` carries the id and the time stamp of one of the attendance rows. */
  predicate FromAttendance(y: LogRow, attendance: seq<AttendanceRow>)
  {
    exists i :: 0 <= i < |attendance| && y.studentId == attendance[i].studentId && y.timestamp == attendance[i].timestamp
  }

  lemma FromAttendanceCons(y: LogRow, attendance: seq<AttendanceRow>)
    requires attendance != []
    ensures FromAttendance(y, attendance) <==>
      (y.studentId == attendance[0].studentId && y.timestamp == attendance[0].timestamp) || FromAttendance(y, attendance[1..])
  {
    var tail := attendance[1..];
    if FromAttendance(y, tail) {
      var i :| 0 <= i < |tail| && y.studentId == tail[i].studentId && y.timestamp == tail[i].timestamp;
      assert attendance[i + 1] == tail[i];
    }
    if exists i :: 1 <= i < |attendance| && y.studentId == attendance[i].studentId && y.timestamp == attendance[i].timestamp {
      var i :| 1 <= i < |attendance| && y.studentId == attendance[i].studentId && y.timestamp == attendance[i].timestamp;
      assert tail[i - 1] == attendance[i];
    }
  }

  /** A joined row comes from an attendance row, a name registered under its id and an
      assignment of that id to the unit. */
  lemma {:induction false} JoinedMembers(attendance: seq<AttendanceRow>, students: seq<StudentRow>,
                                         assignments: seq<Assignment>, unitId: int, y: LogRow)
    ensures y in Joined(attendance, students, assignments, unitId) <==>
      FromAttendance(y, attendance) && y.name in NamesOf(students, y.studentId) && y.studentId in AssignedTo(assignments, unitId)
    decreases |attendance|
  {
    if attendance != [] {
      var a := attendance[0];
      var copies := multiset(AssignedTo(assignments, unitId))[a.studentId];
      var head := JoinOne(a, NamesOf(students, a.studentId), copies);
      var rest := Joined(attendance[1..], students, assignments, unitId);
      assert Joined(attendance, students, assignments, unitId) == head + rest;
      assert y in head + rest <==> y in head || y in rest;
      assert copies > 0 <==> a.studentId in AssignedTo(assignments, unitId);
      JoinedMembers(attendance[1..], students, assignments, unitId, y);
      FromAttendanceCons(y, attendance);
    }
  }

  /** `load_attendance`'s query: the joined rows, newest first. */
  function UnitAttendance(attendance: seq<AttendanceRow>, students: seq<StudentRow>,
                          assignments: seq<Assignment>, unitId: int): (r: seq<LogRow>)
    ensures NewestFirst(r)
  {
    SortNewestFirst(Joined(attendance, students, assignments, unitId))
  }

  /** A row is shown for a unit exactly when it is an attendance row of a registered
      student who is assigned to the unit, with the student's registered name; the
      attendance table has no unit column, so the same row is shown under every unit
      the student is assigned to. */
  lemma UnitAttendanceRows(attendance: seq<AttendanceRow>, students: seq<StudentRow>,
                           assignments: seq<Assignment>, unitId: int, y: LogRow)
    ensures y in UnitAttendance(attendance, students, assignments, unitId) <==>
      (exists i :: 0 <= i < |attendance| &&
         y.studentId == attendance[i].studentId && y.timestamp == attendance[i].timestamp) &&
      (exists j :: 0 <= j < |students| && students[j].studentId == y.studentId && students[j].name == y.name) &&
      Assignment(y.studentId, unitId) in assignments
  {
    var joined := Joined(attendance, students, assignments, unitId);
    var sorted := UnitAttendance(attendance, students, assignments, unitId);
    assert y in sorted <==> y in joined by {
      assert multiset(sorted) == multiset(joined);
      assert y in sorted <==> y in multiset(sorted);
      assert y in joined <==> y in multiset(joined);
    }
    JoinedMembers(attendance, students, assignments, unitId, y);
    NamesOfMembers(students, y.studentId, y.name);
    AssignedToMembers(assignments, unitId, y.studentId);
  }

  /** The number of attendance rows with this student id and time stamp. */
  function RowsAt(attendance: seq<AttendanceRow>, sid: string, timestamp: string): (r: nat)
    ensures r <= |attendance|
    decreases |attendance|
  {
    if attendance == [] then 0
    else
      (if attendance[0].studentId == sid && attendance[0].timestamp == timestamp then 1 else 0) +
      RowsAt(attendance[1..], sid, timestamp)
  }

  lemma {:induction false} RepeatCount(x: LogRow, n: nat, y: LogRow)
    ensures multiset(Repeat(x, n))[y] == if y == x then n else 0
  {
    if n > 0 {
      assert Repeat(x, n) == Repeat(x, n - 1) + [x];
      RepeatCount(x, n - 1, y);
    } else {
      assert Repeat(x, n) == [];
    }
  }

  /** Counting `p` copies for each of `h` and then `r` items gives `p` copies for
      each of the `n` items together. */
  lemma AddMul(h: nat, r: nat, n: nat, p: nat, ch: nat, cr: nat, c: nat)
    requires n == h + r && ch == h * p && cr == r * p && c == ch + cr
    ensures c == n * p
  {
  }

  /** The count of `y` in the rows of one attendance row `a`. */
  predicate JoinOneCounts(a: AttendanceRow, names: seq<string>, copies: nat, y: LogRow)
  {
    multiset(JoinOne(a, names, copies))[y] ==
      if y.studentId == a.studentId && y.timestamp == a.timestamp then multiset(names)[y.name] * copies else 0
  }

  lemma JoinOneCountStep(a: AttendanceRow, names: seq<string>, copies: nat, y: LogRow)
    requires names != [] && JoinOneCounts(a, names[1..], copies, y)
    ensures JoinOneCounts(a, names, copies, y)
  {
    var x := LogRow(a.studentId, names[0], a.timestamp);
    var rest := JoinOne(a, names[1..], copies);
    assert multiset(JoinOne(a, names, copies))[y] == multiset(Repeat(x, copies))[y] + multiset(rest)[y] by {
      assert JoinOne(a, names, copies) == Repeat(x, copies) + rest;
    }
    RepeatCount(x, copies, y);
    if y.studentId == a.studentId && y.timestamp == a.timestamp {
      var here := if names[0] == y.name then 1 else 0;
      assert multiset(names)[y.name] == here + multiset(names[1..])[y.name] by {
        assert names == [names[0]] + names[1..];
      }
      if names[0] == y.name {
        assert y == x;
        AddMul(1, multiset(names[1..])[y.name], multiset(names)[y.name], copies,
               copies, multiset(rest)[y], multiset(JoinOne(a, names, copies))[y]);
      } else {
        AddMul(0, multiset(names[1..])[y.name], multiset(names)[y.name], copies,
               0, multiset(rest)[y], multiset(JoinOne(a, names, copies))[y]);
      }
    }
  }

  lemma {:induction false} JoinOneCount(a: AttendanceRow, names: seq<string>, copies: nat, y: LogRow)
    ensures multiset(JoinOne(a, names, copies))[y] ==
      if y.studentId == a.studentId && y.timestamp == a.timestamp then multiset(names)[y.name] * copies else 0
    decreases |names|
  {
    if names == [] {
      AddMul(0, 0, multiset(names)[y.name], copies, 0, 0, multiset(JoinOne(a, names, copies))[y]);
    } else {
      JoinOneCount(a, names[1..], copies, y);
      JoinOneCountStep(a, names, copies, y);
    }
  }

  /** The share of one attendance row `a` in the join. */
  lemma JoinOneCountFor(a: AttendanceRow, students: seq<StudentRow>, assignments: seq<Assignment>,
                        unitId: int, y: LogRow)
    ensures multiset(JoinOne(a, NamesOf(students, a.studentId), multiset(AssignedTo(assignments, unitId))[a.studentId]))[y] ==
      if a.studentId == y.studentId && a.timestamp == y.timestamp
      then multiset(NamesOf(students, y.studentId))[y.name] * multiset(AssignedTo(assignments, unitId))[y.studentId]
      else 0
  {
    JoinOneCount(a, NamesOf(students, a.studentId), multiset(AssignedTo(assignments, unitId))[a.studentId], y);
  }

  /** One more attendance row in front adds its share to the count. */
  lemma JoinedCountStep(attendance: seq<AttendanceRow>, students: seq<StudentRow>,
                        assignments: seq<Assignment>, unitId: int, y: LogRow, p: nat)
    requires attendance != []
    requires p == multiset(NamesOf(students, y.studentId))[y.name] * multiset(AssignedTo(assignments, unitId))[y.studentId]
    requires multiset(Joined(attendance[1..], students, assignments, unitId))[y] ==
      RowsAt(attendance[1..], y.studentId, y.timestamp) * p
    ensures multiset(Joined(attendance, students, assignments, unitId))[y] == RowsAt(attendance, y.studentId, y.timestamp) * p
  {
    var a := attendance[0];
    var head := JoinOne(a, NamesOf(students, a.studentId), multiset(AssignedTo(assignments, unitId))[a.studentId]);
    var tail := Joined(attendance[1..], students, assignments, unitId);
    var here := if a.studentId == y.studentId && a.timestamp == y.timestamp then 1 else 0;
    assert multiset(Joined(attendance, students, assignments, unitId))[y] == multiset(head)[y] + multiset(tail)[y] by {
      assert Joined(attendance, students, assignments, unitId) == head + tail;
    }
    assert multiset(head)[y] == here * p by {
      JoinOneCountFor(a, students, assignments, unitId, y);
    }
    AddMul(here, RowsAt(attendance[1..], y.studentId, y.timestamp), RowsAt(attendance, y.studentId, y.timestamp), p,
           multiset(head)[y], multiset(tail)[y], multiset(Joined(attendance, students, assignments, unitId))[y]);
  }

  /** Each attendance row of `y`'s student and time stamp yields `y` `p` times: once
      per student row registering `y`'s name under that id and once per assignment
      row of the student to the unit. */
  lemma {:induction false} JoinedCount(attendance: seq<AttendanceRow>, students: seq<StudentRow>,
                                       assignments: seq<Assignment>, unitId: int, y: LogRow, p: nat)
    requires p == multiset(NamesOf(students, y.studentId))[y.name] * multiset(AssignedTo(assignments, unitId))[y.studentId]
    ensures multiset(Joined(attendance, students, assignments, unitId))[y] == RowsAt(attendance, y.studentId, y.timestamp) * p
    decreases |attendance|
  {
    if attendance != [] {
      JoinedCount(attendance[1..], students, assignments, unitId, y, p);
      JoinedCountStep(attendance, students, assignments, unitId, y, p);
    } else {
      assert Joined(attendance, students, assignments, unitId) == [];
      assert RowsAt(attendance, y.studentId, y.timestamp) == 0;
      AddMul(0, 0, RowsAt(attendance, y.studentId, y.timestamp), p, 0, 0, 0);
    }
  }

  /** How often a row is shown: the join keeps its duplicates, so each matching
      attendance row is shown once per registered name and once per assignment of the
      student to the unit. */
  lemma UnitAttendanceCount(attendance: seq<AttendanceRow>, students: seq<StudentRow>,
                            assignments: seq<Assignment>, unitId: int, y: LogRow)
    ensures multiset(UnitAttendance(attendance, students, assignments, unitId))[y] ==
      RowsAt(attendance, y.studentId, y.timestamp) *
      (multiset(NamesOf(students, y.studentId))[y.name] * multiset(AssignedTo(assignments, unitId))[y.studentId])
  {
    JoinedCount(attendance, students, assignments, unitId, y,
      multiset(NamesOf(students, y.studentId))[y.name] * multiset(AssignedTo(assignments, unitId))[y.studentId]);
  }

  /** `filter_table`'s test on `str(row[k]).lower()`, with the query already lowered. */
  predicate RowMatches(y: LogRow, query: string)
  {
    Contains(Lower(y.studentId), query) || Contains(Lower(y.name), query) || Contains(Lower(y.timestamp), query)
  }

  /** `filter_table(text)` */
  function Filtered(rows: seq<LogRow>, text: string): (r: seq<LogRow>)
    ensures forall y :: y in r <==> y in rows && RowMatches(y, Lower(text))
  {
    Filter(rows, (y: LogRow) => RowMatches(y, Lower(text)))
  }

  /** The search keeps the rows' order, so its result is still newest first. */
  lemma FilteredKeepsOrder(rows: seq<LogRow>, text: string)
    requires NewestFirst(rows)
    ensures IsSubsequence(Filtered(rows, text), rows) && NewestFirst(Filtered(rows, text))
  {
    FilterIsSubsequence(rows, (y: LogRow) => RowMatches(y, Lower(text)));
    FilterKeepsNewestFirst(rows, (y: LogRow) => RowMatches(y, Lower(text)));
  }

  lemma {:induction false} FilterKeepsNewestFirst(rows: seq<LogRow>, p: LogRow -> bool)
    requires NewestFirst(rows)
    ensures NewestFirst(Filter(rows, p))
    decreases |rows|
  {
    if rows != [] {
      NewestFirstTail(rows);
      FilterKeepsNewestFirst(rows[1..], p);
      var rest := Filter(rows[1..], p);
      if p(rows[0]) && rest != [] {
        assert rest[0] in rows[1..];
        var j :| 0 <= j < |rows[1..]| && rows[1..][j] == rest[0];
        NewestFirstPairwise(rows, 0, j + 1);
        assert Filter(rows, p) == [rows[0]] + rest;
        ConsNewestFirst(rows[0], rest);
      }
    }
  }

  class ViewAttendanceWindow {
    const db: Database
    /** `self.units`; `None` until `load_units` has set the attribute. */
    var units: Option<seq<UnitRow>>
    /** `unit_combo.currentIndex()`: -1 for an empty combo box. */
    var unitIndex: int
    /** `self.attendance_data` */
    var attendanceData: seq<LogRow>
    /** The rows `populate_table` last put on screen. */
    var shown: seq<LogRow>

    ghost predicate Valid()
      reads this
    {
      units.Some? && -1 <= unitIndex < |units.value| && (units.value != [] <==> unitIndex >= 0)
    }

    /** `__init__`: `load_units`, then `load_attendance`. */
    constructor (db: Database)
      ensures this.db == db && Valid()
      ensures units == Some(db.units) && unitIndex == (if db.units == [] then -1 else 0)
      ensures attendanceData == (if db.units == [] then []
                                 else UnitAttendance(db.attendance, db.students, db.studentUnits, db.units[0].id))
      ensures shown == attendanceData
    {
      this.db := db;
      units := None;
      unitIndex := -1;
      new;
      LoadUnits();
      LoadAttendance();
    }

    /** `load_units`: the combo box lists every unit, and its first entry is current. */
    method LoadUnits()
      modifies this`units, this`unitIndex
      ensures Valid() && units == Some(db.units) && unitIndex == (if db.units == [] then -1 else 0)
    {
      units := Some(db.units);
      unitIndex := if db.units == [] then -1 else 0;
    }

    /** Choosing another unit in the combo box (`currentIndexChanged`). */
    method SelectUnit(k: int)
      requires Valid() && 0 <= k < |units.value|
      modifies this`unitIndex, this`attendanceData, this`shown
      ensures Valid() && unitIndex == k
      ensures attendanceData == UnitAttendance(db.attendance, db.students, db.studentUnits, units.value[k].id)
      ensures shown == attendanceData
    {
      unitIndex := k;
      LoadAttendance();
    }

    /** `load_attendance`: empty when no unit is current or there are no units;
        otherwise the unit's rows, newest first. */
    method LoadAttendance()
      requires units.Some? ==> unitIndex < |units.value|
      modifies this`attendanceData, this`shown
      ensures unitIndex < 0 || units.None? || units.value == [] ==> attendanceData == []
      ensures unitIndex >= 0 && units.Some? && units.value != [] ==>
        attendanceData == UnitAttendance(db.attendance, db.students, db.studentUnits, units.value[unitIndex].id)
      ensures shown == attendanceData
    {
      if unitIndex < 0 || units.None? || units.value == [] {
        attendanceData := [];
        shown := attendanceData;
        return;
      }
      var unitId := units.value[unitIndex].id;
      attendanceData := UnitAttendance(db.attendance, db.students, db.studentUnits, unitId);
      shown := attendanceData;
    }

    /** `filter_table(text)`: shows the matching rows of `attendance_data`. */
    method FilterTable(text: string)
      modifies this`shown
      ensures shown == Filtered(attendanceData, text)
    {
      shown := Filtered(attendanceData, text);
    }
  }
}
