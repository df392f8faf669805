/** `gui/manage_units.py`: the `units` and `student_units` tables, the assignment of
    students to a unit, and the `active_unit.json` record. */
module ManageUnits {
  import opened Wrappers
  import opened Seqs
  import opened Text
  import opened StudentDb

  /** The student ids assigned to unit `u`, in row order. */
  function AssignedTo(rows: seq<Assignment>, u: int): (r: seq<string>)
    ensures |r| <= |rows|
    decreases |rows|
  {
    if rows == [] then []
    else (if rows[0].unitId == u then [rows[0].studentId] else []) + AssignedTo(rows[1..], u)
  }

  lemma {:induction false} AssignedToConcat(a: seq<Assignment>, b: seq<Assignment>, u: int)
    ensures AssignedTo(a + b, u) == AssignedTo(a, u) + AssignedTo(b, u)
    decreases |a|
  {
    if a == [] {
      assert a + b == b;
    } else {
      var h := if a[0].unitId == u then [a[0].studentId] else [];
      assert (a + b)[0] == a[0] && (a + b)[1..] == a[1..] + b;
      assert AssignedTo(a + b, u) == h + AssignedTo(a[1..] + b, u);
      AssignedToConcat(a[1..], b, u);
      assert AssignedTo(a, u) == h + AssignedTo(a[1..], u);
      ConcatAssoc(h, AssignedTo(a[1..], u), AssignedTo(b, u));
    }
  }

  /** A student has a row for unit `u` exactly when it is among `AssignedTo(rows, u)`. */
  lemma {:induction false} AssignedToMembers(rows: seq<Assignment>, u: int, sid: string)
    ensures sid in AssignedTo(rows, u) <==> Assignment(sid, u) in rows
    decreases |rows|
  {
    if rows != [] {
      AssignedToMembers(rows[1..], u, sid);
      assert rows == [rows[0]] + rows[1..];
    }
  }

  /** The rows left by `DELETE FROM student_units WHERE unit_id = ?`. */
  function OtherUnits(rows: seq<Assignment>, u: int): (r: seq<Assignment>)
    ensures forall i :: 0 <= i < |r| ==> r[i].unitId != u
  {
    Filter(rows, (a: Assignment) => a.unitId != u)
  }

  /** The rows inserted for the selection, one per selected id and in selection order. */
  function Inserted(selected: seq<string>, u: int): seq<Assignment>
  {
    seq(|selected|, i requires 0 <= i < |selected| => Assignment(selected[i], u))
  }

  lemma {:induction false} AssignedToInserted(selected: seq<string>, u: int, v: int)
    ensures AssignedTo(Inserted(selected, u), v) == if u == v then selected else []
    decreases |selected|
  {
    if selected != [] {
      AssignedToInserted(selected[1..], u, v);
      assert Inserted(selected, u)[1..] == Inserted(selected[1..], u);
    }
  }

  lemma {:induction false} AssignedToOtherUnits(rows: seq<Assignment>, u: int, v: int)
    ensures AssignedTo(OtherUnits(rows, u), v) == if u == v then [] else AssignedTo(rows, v)
    decreases |rows|
  {
    if rows != [] {
      AssignedToOtherUnits(rows[1..], u, v);
      var h := if rows[0].unitId != u then [rows[0]] else [];
      assert OtherUnits(rows, u) == h + OtherUnits(rows[1..], u);
      AssignedToConcat(h, OtherUnits(rows[1..], u), v);
    }
  }

  /** After saving a selection for unit `u`, the students of `u` are exactly the
      selection, in selection order, and every other unit keeps its students. */
  lemma SavedSelection(rows: seq<Assignment>, u: int, selected: seq<string>, v: int)
    ensures AssignedTo(OtherUnits(rows, u) + Inserted(selected, u), v) ==
      if v == u then selected else AssignedTo(rows, v)
  {
    AssignedToConcat(OtherUnits(rows, u), Inserted(selected, u), v);
    AssignedToOtherUnits(rows, u, v);
    AssignedToInserted(selected, u, v);
    if v != u {
      assert AssignedTo(rows, v) + [] == AssignedTo(rows, v);
    } else {
      assert [] + selected == selected;
    }
  }

  /** Saving rewrites only the rows of `u`: the rows of any other unit, taken in order,
      are the rows they were. */
  lemma {:induction false} SaveKeepsOtherRows(rows: seq<Assignment>, u: int, selected: seq<string>, v: int)
    requires v != u
    ensures Filter(OtherUnits(rows, u) + Inserted(selected, u), (a: Assignment) => a.unitId == v) ==
            Filter(rows, (a: Assignment) => a.unitId == v)
  {
    var p := (a: Assignment) => a.unitId == v;
    FilterConcat(OtherUnits(rows, u), Inserted(selected, u), p);
    FilterDropsAll(Inserted(selected, u), p);
    FilterOfOther(rows, u, v);
    assert Filter(OtherUnits(rows, u), p) + [] == Filter(OtherUnits(rows, u), p);
  }

  lemma {:induction false} FilterOfOther(rows: seq<Assignment>, u: int, v: int)
    requires v != u
    ensures Filter(OtherUnits(rows, u), (a: Assignment) => a.unitId == v) ==
            Filter(rows, (a: Assignment) => a.unitId == v)
    decreases |rows|
  {
    var p := (a: Assignment) => a.unitId == v;
    if rows != [] {
      FilterOfOther(rows[1..], u, v);
      var h := if rows[0].unitId != u then [rows[0]] else [];
      assert OtherUnits(rows, u) == h + OtherUnits(rows[1..], u);
      FilterConcat(h, OtherUnits(rows[1..], u), p);
    }
  }

  /** One entry of the multi-selection list of `assign_students`. */
  datatype StudentItem = StudentItem(studentId: string, name: string, selected: bool)

  /** The characters `random.choices` draws from: `string.ascii_uppercase + string.digits`. */
  const PasswordAlphabet: string := "ABCDEFGHIJKLMNOPQRSTUVWXYZ0123456789"
  const PasswordLength: nat := 6

  predicate IsPasswordChar(c: char)
  {
    'A' <= c <= 'Z' || '0' <= c <= '9'
  }

  /** The password for the given draws of `random.choices` (indices into the alphabet). */
  function Password(draws: seq<nat>): (p: string)
    requires forall i :: 0 <= i < |draws| ==> draws[i] < |PasswordAlphabet|
    ensures |p| == |draws| && forall i :: 0 <= i < |p| ==> IsPasswordChar(p[i])
  {
    assert forall i | 0 <= i < |draws| :: IsPasswordChar(PasswordAlphabet[draws[i]]) by {
      forall i | 0 <= i < |draws| ensures IsPasswordChar(PasswordAlphabet[draws[i]]) {
        AlphabetChar(draws[i]);
      }
    }
    seq(|draws|, i requires 0 <= i < |draws| => PasswordAlphabet[draws[i]])
  }

  lemma AlphabetChar(k: nat)
    requires k < |PasswordAlphabet|
    ensures IsPasswordChar(PasswordAlphabet[k])
  {
    if k < 26 {
      AlphabetLetters(k);
    } else {
      AlphabetDigits(k - 26);
    }
  }

  /** The position of a password character in the alphabet. */
  function AlphabetIndex(c: char): (k: nat)
    requires IsPasswordChar(c)
    ensures k < |PasswordAlphabet| && PasswordAlphabet[k] == c
  {
    if 'A' <= c <= 'Z' then
      var k := c as int - 'A' as int;
      assert PasswordAlphabet[..26] == "ABCDEFGHIJKLMNOPQRSTUVWXYZ";
      AlphabetLetters(k);
      k
    else
      var k := c as int - '0' as int;
      AlphabetDigits(k);
      26 + k
  }

  lemma AlphabetLetters(k: int)
    requires 0 <= k < 26
    ensures PasswordAlphabet[k] as int == 'A' as int + k
  {
  }

  lemma AlphabetDigits(k: int)
    requires 0 <= k < 10
    ensures PasswordAlphabet[26 + k] as int == '0' as int + k
  {
  }

  /** Every string of password characters is the password of some draws, so the six
      draws can produce any of the 36^6 passwords. */
  lemma EveryPasswordReachable(p: string)
    requires forall i :: 0 <= i < |p| ==> IsPasswordChar(p[i])
    ensures var draws := seq(|p|, i requires 0 <= i < |p| => AlphabetIndex(p[i]));
      (forall i :: 0 <= i < |draws| ==> draws[i] < |PasswordAlphabet|) && Password(draws) == p
  {
  }

  /** `active_unit.json`. `set_active_unit` writes only the id; the other keys are
      absent (`None`). */
  datatype ActiveUnit = ActiveUnit(unitId: int, unitName: Option<string>, unitCode: Option<string>,
                                   password: Option<string>)

  class ManageUnitsWindow {
    const db: Database
    /** The contents of `active_unit.json`; `None` while the file does not exist. */
    var activeUnit: Option<ActiveUnit>

    /** `__init__`: `ensure_units_table` and `ensure_student_units_table`. */
    constructor (db: Database, activeUnit: Option<ActiveUnit>)
      modifies db`tables
      ensures this.db == db && this.activeUnit == activeUnit
      ensures db.tables == old(db.tables) + {Units, StudentUnits}
    {
      this.db := db;
      this.activeUnit := activeUnit;
      new;
      db.tables := db.tables + {Units, StudentUnits};
    }

    /** `add_unit`: both fields are stripped; an empty one is refused with a warning
        and nothing is inserted, otherwise one row with the next `AUTOINCREMENT` id. */
    method AddUnit(nameText: string, codeText: string) returns (added: bool)
      requires db.Valid()
      modifies db`units, db`nextUnitId
      ensures db.Valid()
      ensures added <==> !AllSpace(nameText) && !AllSpace(codeText)
      ensures added ==> db.units == old(db.units) + [UnitRow(old(db.nextUnitId), Strip(nameText), Strip(codeText))]
      ensures !added ==> db.units == old(db.units) && db.nextUnitId == old(db.nextUnitId)
    {
      var name, code := Strip(nameText), Strip(codeText);
      StripEmpty(nameText);
      StripEmpty(codeText);
      if name == [] || code == [] {
        return false;
      }
      db.InsertUnit(name, code);
      added := true;
    }

    /** `assign_students`: every student in row order, selected exactly when an
        assignment row for the unit exists. */
    method AssignStudents(unitId: int) returns (items: seq<StudentItem>)
      ensures |items| == |db.students|
      ensures forall i :: 0 <= i < |items| ==>
        items[i].studentId == db.students[i].studentId && items[i].name == db.students[i].name &&
        (items[i].selected <==> Assignment(db.students[i].studentId, unitId) in db.studentUnits)
    {
      var rows := db.studentUnits;
      var assignedIds := set i | 0 <= i < |rows| && rows[i].unitId == unitId :: rows[i].studentId;
      items := [];
      var i := 0;
      while i < |db.students|
        invariant 0 <= i <= |db.students| && |items| == i
        invariant forall j :: 0 <= j < i ==>
          items[j].studentId == db.students[j].studentId && items[j].name == db.students[j].name &&
          (items[j].selected <==> Assignment(db.students[j].studentId, unitId) in rows)
      {
        var sid := db.students[i].studentId;
        items := items + [StudentItem(sid, db.students[i].name, sid in assignedIds)];
        assert sid in assignedIds <==> Assignment(sid, unitId) in rows by {
          if Assignment(sid, unitId) in rows {
            var k :| 0 <= k < |rows| && rows[k] == Assignment(sid, unitId);
            assert rows[k].studentId in assignedIds;
          }
        }
        i := i + 1;
      }
    }

    /** `save_assigned_students`: delete the unit's rows, then insert one row per
        selected id. */
    method SaveAssignedStudents(unitId: int, selected: seq<string>)
      modifies db`studentUnits
      ensures db.studentUnits == OtherUnits(old(db.studentUnits), unitId) + Inserted(selected, unitId)
    {
      db.studentUnits := OtherUnits(db.studentUnits, unitId);
      ghost var kept := db.studentUnits;
      var i := 0;
      while i < |selected|
        invariant 0 <= i <= |selected|
        invariant db.studentUnits == kept + Inserted(selected[..i], unitId)
      {
        assert Inserted(selected[..i + 1], unitId) == Inserted(selected[..i], unitId) + [Assignment(selected[i], unitId)];
        db.studentUnits := db.studentUnits + [Assignment(selected[i], unitId)];
        i := i + 1;
      }
      assert selected[..i] == selected;
    }

    /** `prepare_for_attendance`: a six-character password from the draws, written to
        `active_unit.json` with the unit's id, name and code. */
    method PrepareForAttendance(unitId: int, unitName: string, unitCode: string, draws: seq<nat>)
      returns (password: string)
      requires |draws| == PasswordLength && forall i :: 0 <= i < |draws| ==> draws[i] < |PasswordAlphabet|
      modifies this`activeUnit
      ensures password == Password(draws) && |password| == PasswordLength
      ensures activeUnit == Some(ActiveUnit(unitId, Some(unitName), Some(unitCode), Some(password)))
    {
      password := Password(draws);
      activeUnit := Some(ActiveUnit(unitId, Some(unitName), Some(unitCode), Some(password)));
    }

    /** `set_active_unit`: overwrites the record with the id alone. */
    method SetActiveUnit(unitId: int)
      modifies this`activeUnit
      ensures activeUnit == Some(ActiveUnit(unitId, None, None, None))
    {
      activeUnit := Some(ActiveUnit(unitId, None, None, None));
    }
  }

  /** Reopening the assignment dialog after a save preselects exactly the saved students. */
  method SaveThenReopen(w: ManageUnitsWindow, unitId: int, selected: seq<string>) returns (items: seq<StudentItem>)
    modifies w.db`studentUnits
    ensures |items| == |w.db.students|
    ensures forall i :: 0 <= i < |items| ==> (items[i].selected <==> items[i].studentId in selected)
  {
    w.SaveAssignedStudents(unitId, selected);
    items := w.AssignStudents(unitId);
    forall i | 0 <= i < |items| ensures items[i].selected <==> items[i].studentId in selected {
      AssignedToMembers(w.db.studentUnits, unitId, items[i].studentId);
      SavedSelection(old(w.db.studentUnits), unitId, selected, unitId);
    }
  }

  /** Preparing a unit and then setting it active drops the password, name and code. */
  method PrepareThenSetActive(w: ManageUnitsWindow, unitId: int, unitName: string, unitCode: string, draws: seq<nat>)
    requires |draws| == PasswordLength && forall i :: 0 <= i < |draws| ==> draws[i] < |PasswordAlphabet|
    modifies w`activeUnit
    ensures w.activeUnit.Some? && w.activeUnit.value.password.None? && w.activeUnit.value.unitName.None?
  {
    var _ := w.PrepareForAttendance(unitId, unitName, unitCode, draws);
    w.SetActiveUnit(unitId);
  }
}
