/** `gui/view_students.py`: the table of registered students, its search box and
    the deletion of a student with the student's media files. */
module ViewStudents {
  import opened Wrappers
  import opened Seqs
  import opened Text
  import opened StudentDb
  import opened Media

  /** One entry of `rows_data`: `(sid, name, voice_path, img_path)`. */
  datatype StudentEntry = StudentEntry(studentId: string, name: string, voicePath: string, imagePath: string)

  /** `SELECT name, voice_path FROM students WHERE student_id = ?` followed by `fetchone()`. */
  function Lookup(rows: seq<StudentRow>, sid: string): (r: Option<StudentRow>)
    ensures r.Some? <==> HasStudent(rows, sid)
    ensures r.Some? ==> r.value in rows && r.value.studentId == sid
    decreases |rows|
  {
    if rows == [] then None
    else if rows[0].studentId == sid then Some(rows[0])
    else
      var r := Lookup(rows[1..], sid);
      assert r.Some? ==> r.value in rows;
      assert HasStudent(rows[1..], sid) ==> HasStudent(rows, sid) by {
        if HasStudent(rows[1..], sid) {
          var i :| 0 <= i < |rows[1..]| && rows[1..][i].studentId == sid;
          assert rows[i + 1].studentId == sid;
        }
      }
      assert HasStudent(rows, sid) && rows[0].studentId != sid ==> HasStudent(rows[1..], sid) by {
        if HasStudent(rows, sid) && rows[0].studentId != sid {
          var i :| 0 <= i < |rows| && rows[i].studentId == sid;
          assert rows[1..][i - 1].studentId == sid;
        }
      }
      r
  }

  /** With unique ids the lookup of a row's id finds that row. */
  lemma LookupUnique(rows: seq<StudentRow>, i: nat)
    requires UniqueStudentIds(rows) && i < |rows|
    ensures Lookup(rows, rows[i].studentId) == Some(rows[i])
  {
    var r := Lookup(rows, rows[i].studentId).value;
    var j :| 0 <= j < |rows| && rows[j] == r;
    assert rows[j].studentId == rows[i].studentId;
  }

  /** The entry shown for a looked-up row; the image path follows the registration convention. */
  function EntryOf(sid: string, row: StudentRow): StudentEntry
  {
    StudentEntry(sid, row.name, row.voicePath, FacePath(sid))
  }

  /** `filter_table`'s test, with the query already lowered. */
  predicate EntryMatches(e: StudentEntry, query: string)
  {
    Contains(Lower(e.studentId), query) || Contains(Lower(e.name), query)
  }

  /** `filter_table(text)` */
  function Filtered(rows: seq<StudentEntry>, text: string): (r: seq<StudentEntry>)
    ensures forall e :: e in r <==> e in rows && EntryMatches(e, Lower(text))
  {
    Filter(rows, (e: StudentEntry) => EntryMatches(e, Lower(text)))
  }

  /** The search keeps the table's order: its result is a subsequence of the rows. */
  lemma FilteredKeepsOrder(rows: seq<StudentEntry>, text: string)
    ensures IsSubsequence(Filtered(rows, text), rows)
  {
    FilterIsSubsequence(rows, (e: StudentEntry) => EntryMatches(e, Lower(text)));
  }

  /** An empty search box shows every row. */
  lemma EmptySearchKeepsAll(rows: seq<StudentEntry>)
    ensures Filtered(rows, "") == rows
  {
    forall i | 0 <= i < |rows| ensures EntryMatches(rows[i], Lower("")) {
      ContainsEmpty(Lower(rows[i].studentId));
    }
    FilterKeepsAll(rows, (e: StudentEntry) => EntryMatches(e, Lower("")));
  }

  /** The search ignores the case of the query. */
  lemma SearchIgnoresQueryCase(rows: seq<StudentEntry>, text: string)
    ensures Filtered(rows, Lower(text)) == Filtered(rows, text)
  {
    LowerIdempotent(text);
  }

  class ViewStudentsWindow {
    const db: Database
    const media: MediaStore
    /** `self.rows_data` */
    var rowsData: seq<StudentEntry>
    /** The entries `populate_table` last put on screen. */
    var shown: seq<StudentEntry>

    /** `__init__` ends with `load_table`. */
    constructor (db: Database, media: MediaStore)
      ensures this.db == db && this.media == media
      ensures |rowsData| == |db.students| && shown == rowsData
      ensures forall i :: 0 <= i < |rowsData| ==>
        Lookup(db.students, db.students[i].studentId).Some? &&
        rowsData[i] == EntryOf(db.students[i].studentId, Lookup(db.students, db.students[i].studentId).value)
    {
      this.db := db;
      this.media := media;
      new;
      LoadTable();
    }

    /** `load_table`: one entry per loaded id whose lookup returns a record, in the
        order of `load_all_encodings`; every lookup succeeds because the ids come from
        the same table. */
    method LoadTable()
      modifies this`rowsData, this`shown
      ensures |rowsData| == |db.students| && shown == rowsData
      ensures forall i :: 0 <= i < |rowsData| ==>
        Lookup(db.students, db.students[i].studentId).Some? &&
        rowsData[i] == EntryOf(db.students[i].studentId, Lookup(db.students, db.students[i].studentId).value)
    {
      var ids, _, _ := db.LoadAllEncodings();
      rowsData := [];
      var i := 0;
      while i < |ids|
        invariant 0 <= i <= |ids| && |rowsData| == i
        invariant forall j :: 0 <= j < i ==>
          Lookup(db.students, db.students[j].studentId).Some? &&
          rowsData[j] == EntryOf(db.students[j].studentId, Lookup(db.students, db.students[j].studentId).value)
      {
        var sid := ids[i];
        var result := Lookup(db.students, sid);
        assert HasStudent(db.students, sid) by { assert db.students[i].studentId == sid; }
        if result.Some? {
          rowsData := rowsData + [EntryOf(sid, result.value)];
        }
        i := i + 1;
      }
      shown := rowsData;
    }

    /** `filter_table(text)`: shows the matching entries of `rows_data`. */
    method FilterTable(text: string)
      modifies this`shown
      ensures shown == Filtered(rowsData, text)
    {
      shown := Filtered(rowsData, text);
    }

    /** `delete_student`: nothing happens unless the dialog is confirmed; then the
        student's row is deleted, the face and voice files are removed where they
        exist, and the table is reloaded. */
    method DeleteStudent(sid: string, confirmed: bool)
      requires db.Valid()
      modifies db`students, media, this`rowsData, this`shown
      ensures db.Valid()
      ensures !confirmed ==>
        db.students == old(db.students) && media.files == old(media.files) &&
        rowsData == old(rowsData) && shown == old(shown)
      ensures confirmed ==>
        db.students == Filter(old(db.students), (r: StudentRow) => r.studentId != sid) &&
        !HasStudent(db.students, sid) &&
        media.files == old(media.files) - {FacePath(sid), VoicePath(sid)} &&
        |rowsData| == |db.students| && shown == rowsData &&
        forall i :: 0 <= i < |rowsData| ==>
          Lookup(db.students, db.students[i].studentId).Some? &&
          rowsData[i] == EntryOf(db.students[i].studentId, Lookup(db.students, db.students[i].studentId).value)
    {
      if confirmed {
        var kept := Filter(db.students, (r: StudentRow) => r.studentId != sid);
        FilterKeepsUnique(db.students, sid);
        FilterDropsId(db.students, sid);
        db.students := kept;
        media.RemoveIfExists(FacePath(sid));
        media.RemoveIfExists(VoicePath(sid));
        LoadTable();
      }
    }
  }

  /** After the delete the id is gone from the table. */
  lemma FilterDropsId(rows: seq<StudentRow>, sid: string)
    ensures !HasStudent(Filter(rows, (r: StudentRow) => r.studentId != sid), sid)
  {
    var kept := Filter(rows, (r: StudentRow) => r.studentId != sid);
    forall i | 0 <= i < |kept| ensures kept[i].studentId != sid {
    }
  }

  /** Deleting an id keeps the other ids unique. */
  lemma {:induction false} FilterKeepsUnique(rows: seq<StudentRow>, sid: string)
    requires UniqueStudentIds(rows)
    ensures UniqueStudentIds(Filter(rows, (r: StudentRow) => r.studentId != sid))
    decreases |rows|
  {
    var p := (r: StudentRow) => r.studentId != sid;
    if rows != [] {
      var rest := Filter(rows[1..], p);
      FilterKeepsUnique(rows[1..], sid);
      if p(rows[0]) {
        assert Filter(rows, p) == [rows[0]] + rest;
        forall j | 0 <= j < |rest| ensures rest[j].studentId != rows[0].studentId {
          var k :| 0 <= k < |rows[1..]| && rows[1..][k] == rest[j];
          assert rows[k + 1] == rest[j];
        }
      }
    }
  }
}
