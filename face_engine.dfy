/** `face_engine/recognizer.py`: building the encodings of the dataset directory,
    the live recogniser that logs every match, and the file guard of voice matching. */
module FaceEngine {
  import opened Wrappers
  import opened Seqs
  import opened Text
  import opened Clock
  import opened Matching
  import opened StudentDb
  import opened Camera
  import opened Media

  /** One entry of `os.listdir(DATASET_DIR)`: the file name and the encodings
      `face_encodings` finds in the image. */
  datatype DatasetFile = DatasetFile(fileName: string, faces: seq<Encoding>)

  /** The files `encode_faces` keeps: a face image with at least one face in it. */
  predicate Encodable(f: DatasetFile)
  {
    EndsWith(f.fileName, FaceSuffix) && |f.faces| > 0
  }

  /** `file.replace("_face.jpg", "")` */
  function DerivedName(fileName: string): (r: string)
    ensures |r| <= |fileName|
  {
    RemoveAll(fileName, FaceSuffix)
  }

  /** `encode_faces`: the first encoding and the derived name of every encodable
      file, in listing order; the pickle file written at the end is left out. */
  method EncodeFaces(listing: seq<DatasetFile>) returns (encodings: seq<Encoding>, names: seq<string>)
    ensures var kept := Filter(listing, Encodable);
      |encodings| == |kept| && |names| == |kept| &&
      forall i :: 0 <= i < |kept| ==>
        encodings[i] == kept[i].faces[0] && names[i] == DerivedName(kept[i].fileName)
  {
    encodings, names := [], [];
    var i := 0;
    while i < |listing|
      invariant 0 <= i <= |listing|
      invariant var kept := Filter(listing[..i], Encodable);
        |encodings| == |kept| && |names| == |kept| &&
        forall j :: 0 <= j < |kept| ==>
          encodings[j] == kept[j].faces[0] && names[j] == DerivedName(kept[j].fileName)
    {
      var file := listing[i];
      FilterConcat(listing[..i], [file], Encodable);
      assert listing[..i + 1] == listing[..i] + [file];
      if EndsWith(file.fileName, FaceSuffix) {
        if |file.faces| > 0 {
          encodings := encodings + [file.faces[0]];
          names := names + [DerivedName(file.fileName)];
        }
      }
      i := i + 1;
    }
    assert listing[..i] == listing;
  }

  /** A face image saved by registration gives back the student id as its name, as
      long as the id has no underscore (where an occurrence of the suffix could start). */
  lemma RegisteredFaceName(sid: string)
    requires forall i :: 0 <= i < |sid| ==> sid[i] != '_'
    ensures DerivedName(FaceFileName(sid)) == sid
  {
    RemoveAllOfSuffix(sid, FaceSuffix);
  }

  /** The derived name is not the file name minus its suffix: every occurrence is
      removed, so two different files can encode under the same name. */
  lemma DerivedNameRemovesEveryOccurrence()
    ensures DerivedName("a_face.jpg_face.jpg") == "a" && DerivedName("a_face.jpg") == "a"
  {
    assert "a_face.jpg_face.jpg" == ['a'] + (FaceSuffix + FaceSuffix);
    assert "a_face.jpg" == ['a'] + (FaceSuffix + []);
    RemoveAllKeeps('a', FaceSuffix + FaceSuffix, FaceSuffix);
    RemoveAllKeeps('a', FaceSuffix + [], FaceSuffix);
    RemoveAllLeading(FaceSuffix, FaceSuffix);
    RemoveAllLeading(FaceSuffix, []);
    assert FaceSuffix == FaceSuffix + [];
  }

  /** The known student `recognize_face_live` names for a face: the first one that
      `compare_faces` flags at tolerance 0.45. */
  function LiveMatch(f: Face): (r: Option<nat>)
    ensures r.Some? <==> BestMatch(f.distances, LiveTolerance).Some?
    ensures r.Some? ==> r.value < |f.distances| && f.distances[r.value] <= LiveTolerance
  {
    FirstWithinVersusBestMatch(f.distances, LiveTolerance);
    FirstWithin(f.distances, LiveTolerance)
  }

  predicate Recognised(f: Face)
  {
    LiveMatch(f).Some?
  }

  /** The students logged for one frame: one mark per recognised face, with no check
      for an earlier mark, in the order of the faces. */
  function LiveMarks(faces: seq<Face>, ids: seq<string>, names: seq<string>): (r: seq<Mark>)
    requires |ids| == |names| && DistancesFit(faces, |ids|)
    ensures |r| <= |faces|
    decreases |faces|
  {
    if faces == [] then []
    else
      var last := faces[|faces| - 1];
      LiveMarks(faces[..|faces| - 1], ids, names) + FaceMarks(last, ids, names)
  }

  /** Every recognised face is logged and nothing else is: there are as many marks as
      recognised faces, so the same student is logged again for each face and frame. */
  lemma {:induction false} LiveMarksCount(faces: seq<Face>, ids: seq<string>, names: seq<string>)
    requires |ids| == |names| && DistancesFit(faces, |ids|)
    ensures |LiveMarks(faces, ids, names)| == |Filter(faces, Recognised)|
    decreases |faces|
  {
    if faces != [] {
      var init, last := faces[..|faces| - 1], faces[|faces| - 1];
      assert init + [last] == faces;
      LiveMarksCount(init, ids, names);
      FilterConcat(init, [last], Recognised);
      assert [last][1..] == [];
      assert |Filter([last], Recognised)| == |FaceMarks(last, ids, names)|;
    }
  }

  lemma FilterSingleFace(f: Face)
    ensures Filter([f], Recognised) == if Recognised(f) then [f] else []
  {
    assert [f][1..] == [];
  }

  /** The student a recognised face names: the first one flagged at tolerance 0.45. */
  function RecognisedMark(f: Face, ids: seq<string>, names: seq<string>): (r: Mark)
    requires Recognised(f) && |ids| == |names| == |f.distances|
    ensures exists k :: 0 <= k < |ids| && LiveMatch(f) == Some(k) && r == Mark(ids[k], names[k])
  {
    Mark(ids[LiveMatch(f).value], names[LiveMatch(f).value])
  }

  /** `marks` lists, one for one and in order, the students the faces `shown` name. */
  predicate MarksOfFaces(marks: seq<Mark>, shown: seq<Face>, ids: seq<string>, names: seq<string>)
  {
    |ids| == |names| && |marks| == |shown| &&
    forall i :: 0 <= i < |shown| ==>
      Recognised(shown[i]) && |shown[i].distances| == |ids| && marks[i] == RecognisedMark(shown[i], ids, names)
  }

  lemma MarksOfFacesAppend(marks: seq<Mark>, shown: seq<Face>, f: Face, ids: seq<string>, names: seq<string>)
    requires MarksOfFaces(marks, shown, ids, names) && Recognised(f) && |f.distances| == |ids|
    ensures MarksOfFaces(marks + [RecognisedMark(f, ids, names)], shown + [f], ids, names)
  {
    var marks', shown' := marks + [RecognisedMark(f, ids, names)], shown + [f];
    forall i | 0 <= i < |shown'|
      ensures Recognised(shown'[i]) && |shown'[i].distances| == |ids| && marks'[i] == RecognisedMark(shown'[i], ids, names)
    {
      if i < |shown| {
        assert shown'[i] == shown[i] && marks'[i] == marks[i];
      }
    }
  }

  /** Face by face: the i-th mark of a frame is the student named by its i-th
      recognised face. */
  lemma {:induction false} LiveMarksAreMatches(faces: seq<Face>, ids: seq<string>, names: seq<string>)
    requires |ids| == |names| && DistancesFit(faces, |ids|)
    ensures MarksOfFaces(LiveMarks(faces, ids, names), Filter(faces, Recognised), ids, names)
    decreases |faces|
  {
    if faces != [] {
      var init, last := faces[..|faces| - 1], faces[|faces| - 1];
      assert init + [last] == faces by { assert |init + [last]| == |faces|; }
      assert DistancesFit(init, |ids|);
      LiveMarksAreMatches(init, ids, names);
      FilterConcat(init, [last], Recognised);
      FilterSingleFace(last);
      var before, marks := Filter(init, Recognised), LiveMarks(init, ids, names);
      assert LiveMarks(faces, ids, names) == marks + FaceMarks(last, ids, names);
      if Recognised(last) {
        assert Filter(faces, Recognised) == before + [last];
        assert FaceMarks(last, ids, names) == [RecognisedMark(last, ids, names)];
        MarksOfFacesAppend(marks, before, last, ids, names);
      } else {
        assert Filter(faces, Recognised) == before && FaceMarks(last, ids, names) == [];
      }
    }
  }

  /** How `recognize_face_live` returns. */
  datatype LiveEnd = NoStudents | ReadFailed | QuitKey | LiveFramesExhausted

  /** The attendance rows of a live session: every frame until the camera fails to
      deliver or `q` is pressed, each mark stamped with its frame's time. */
  function LiveSession(frames: seq<Frame>, ids: seq<string>, names: seq<string>): (r: seq<Stamped>)
    requires |ids| == |names| && FramesFit(frames, |ids|)
    ensures ValidStamps(r)
    decreases |frames|
  {
    if frames == [] || frames[0].Unreadable? then []
    else
      var marks := StampAll(LiveMarks(frames[0].faces, ids, names), frames[0].now);
      if frames[0].quitPressed then marks
      else marks + LiveSession(frames[1..], ids, names)
  }

  /** Stamping distributes over concatenation. */
  lemma StampAllConcat(a: seq<Mark>, b: seq<Mark>, now: DateTime)
    ensures StampAll(a + b, now) == StampAll(a, now) + StampAll(b, now)
  {
  }

  /** The face loop of one frame: `log_attendance` for every recognised face. */
  method LogLiveFrame(db: Database, faces: seq<Face>, ids: seq<string>, names: seq<string>, now: DateTime)
    requires |ids| == |names| && DistancesFit(faces, |ids|) && ValidDateTime(now)
    modifies db`attendance
    ensures db.attendance == old(db.attendance) + AttendanceRows(StampAll(LiveMarks(faces, ids, names), now))
  {
    ghost var rows0 := db.attendance;
    var i := 0;
    while i < |faces|
      invariant 0 <= i <= |faces|
      invariant db.attendance == rows0 + AttendanceRows(StampAll(LiveMarks(faces[..i], ids, names), now))
    {
      LiveRowsStep(faces, i, ids, names, now, rows0);
      var matched := FirstWithin(faces[i].distances, LiveTolerance);
      if matched.Some? {
        assert FaceMarks(faces[i], ids, names) == [Mark(ids[matched.value], names[matched.value])];
        db.LogAttendance(ids[matched.value], names[matched.value], now);
      }
      i := i + 1;
    }
    assert faces[..i] == faces;
  }

  /** The mark one face adds to its frame's marks. */
  function FaceMarks(f: Face, ids: seq<string>, names: seq<string>): (r: seq<Mark>)
    requires |ids| == |names| == |f.distances|
    ensures |r| <= 1
  {
    match LiveMatch(f)
    case None => []
    case Some(k) => [Mark(ids[k], names[k])]
  }

  /** The marks of one more face of a frame. */
  lemma LiveMarksStep(faces: seq<Face>, i: nat, ids: seq<string>, names: seq<string>)
    requires |ids| == |names| && DistancesFit(faces, |ids|) && i < |faces|
    ensures DistancesFit(faces[..i], |ids|) && DistancesFit(faces[..i + 1], |ids|)
    ensures LiveMarks(faces[..i + 1], ids, names) == LiveMarks(faces[..i], ids, names) + FaceMarks(faces[i], ids, names)
  {
    var pre := faces[..i + 1];
    assert pre[..i] == faces[..i] && pre[i] == faces[i];
  }

  /** The rows of one more face of a frame. */
  lemma LiveRowsStep(faces: seq<Face>, i: nat, ids: seq<string>, names: seq<string>, now: DateTime,
                     rows0: seq<AttendanceRow>)
    requires |ids| == |names| && DistancesFit(faces, |ids|) && ValidDateTime(now) && i < |faces|
    ensures DistancesFit(faces[..i], |ids|) && DistancesFit(faces[..i + 1], |ids|)
    ensures rows0 + AttendanceRows(StampAll(LiveMarks(faces[..i + 1], ids, names), now)) ==
            rows0 + AttendanceRows(StampAll(LiveMarks(faces[..i], ids, names), now)) +
            AttendanceRows(StampAll(FaceMarks(faces[i], ids, names), now))
  {
    LiveMarksStep(faces, i, ids, names);
    var before, extra := LiveMarks(faces[..i], ids, names), FaceMarks(faces[i], ids, names);
    StampAllConcat(before, extra, now);
    AttendanceRowsAppend(StampAll(before, now), StampAll(extra, now));
    ConcatAssoc(rows0, AttendanceRows(StampAll(before, now)), AttendanceRows(StampAll(extra, now)));
  }

  /** `LogLiveFrame` stated against the rows of the frames before it. */
  method LogLiveFrameAfter(db: Database, faces: seq<Face>, ids: seq<string>, names: seq<string>, now: DateTime,
                           ghost done: seq<Stamped>, ghost rows0: seq<AttendanceRow>)
    requires |ids| == |names| && DistancesFit(faces, |ids|) && ValidDateTime(now) && ValidStamps(done)
    requires db.attendance == rows0 + AttendanceRows(done)
    modifies db`attendance
    ensures ValidStamps(done + StampAll(LiveMarks(faces, ids, names), now))
    ensures db.attendance == rows0 + AttendanceRows(done + StampAll(LiveMarks(faces, ids, names), now))
  {
    var marks := StampAll(LiveMarks(faces, ids, names), now);
    AttendanceRowsAppend(done, marks);
    ConcatAssoc(rows0, AttendanceRows(done), AttendanceRows(marks));
    LogLiveFrame(db, faces, ids, names, now);
  }

  /** `recognize_face_live`: with no enrolled student it returns before opening the
      camera; otherwise it logs every match of every frame. */
  method RecognizeFaceLive(db: Database, frames: seq<Frame>) returns (end: LiveEnd)
    requires FramesFit(frames, |db.students|)
    modifies db`attendance
    ensures end == NoStudents <==> |db.students| == 0
    ensures end == NoStudents ==> db.attendance == old(db.attendance)
    ensures end != NoStudents ==>
      db.attendance == old(db.attendance) + AttendanceRows(LiveSession(frames, StudentIds(db.students), StudentNames(db.students)))
  {
    var ids, names, encodings := db.LoadAllEncodings();
    if |encodings| == 0 {
      return NoStudents;
    }
    assert ids == StudentIds(db.students) && names == StudentNames(db.students);
    ghost var rows0 := db.attendance;
    ghost var done: seq<Stamped> := [];
    end := LiveFramesExhausted;
    var i := 0;
    while i < |frames|
      invariant 0 <= i <= |frames|
      invariant |ids| == |names| == |db.students|
      invariant end == LiveFramesExhausted && ValidStamps(done)
      invariant db.attendance == rows0 + AttendanceRows(done)
      invariant LiveSession(frames, ids, names) == done + LiveSession(frames[i..], ids, names)
    {
      var frame := frames[i];
      if frame.Unreadable? {
        end := ReadFailed;
        assert done + [] == done;
        return;
      }
      ghost var marks := StampAll(LiveMarks(frame.faces, ids, names), frame.now);
      LogLiveFrameAfter(db, frame.faces, ids, names, frame.now, done, rows0);
      if frame.quitPressed {
        end := QuitKey;
        assert LiveSession(frames[i..], ids, names) == marks;
        return;
      }
      assert frames[i..][1..] == frames[i + 1..];
      ghost var rest := LiveSession(frames[i + 1..], ids, names);
      assert LiveSession(frames[i..], ids, names) == marks + rest;
      ConcatAssoc(done, marks, rest);
      done := done + marks;
      i := i + 1;
    }
    assert LiveSession(frames[i..], ids, names) == [];
    assert done + [] == done;
  }

  /** `match_voice`: false unless both the enrolled recording `students/{id}_voice.wav`
      and the test recording exist; otherwise the cosine similarity of the two
      embeddings (an input here) must exceed the threshold. */
  function MatchVoice(existing: set<string>, sid: string, testPath: string, similarity: real,
                      threshold: real): bool
  {
    if VoicePath(sid) !in existing || testPath !in existing then false
    else similarity > threshold
  }

  /** A student without an enrolled recording, or a missing test recording, never
      matches, whatever the two embeddings would have given. */
  lemma MatchVoiceNeedsFiles(existing: set<string>, sid: string, testPath: string, threshold: real)
    requires VoicePath(sid) !in existing || testPath !in existing
    ensures forall similarity :: !MatchVoice(existing, sid, testPath, similarity, threshold)
  {
  }

  /** With both recordings present, a match survives a higher similarity or a lower
      threshold, and a similarity at or below the threshold is refused. */
  lemma MatchVoiceMonotone(existing: set<string>, sid: string, testPath: string,
                           similarity: real, threshold: real, similarity': real, threshold': real)
    requires VoicePath(sid) in existing && testPath in existing
    requires similarity <= similarity' && threshold' <= threshold
    ensures MatchVoice(existing, sid, testPath, similarity, threshold) ==>
            MatchVoice(existing, sid, testPath, similarity', threshold')
    ensures similarity <= threshold ==> !MatchVoice(existing, sid, testPath, similarity, threshold)
  {
  }

  /** The default threshold of `match_voice`. */
  const VoiceThreshold: real := 0.75
}
