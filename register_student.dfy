/** `gui/register_student.py`: capturing a face image and a voice recording under the
    typed student id, and saving the student. */
module RegisterStudent {
  import opened Wrappers
  import opened StudentDb
  import opened Media

  datatype SaveOutcome = Incomplete | FaceMissing | NoFaceFound | Saved

  /** `save_data`'s checks in order: every field and both captures present, the face
      file on disk, a face in the image. */
  function SaveDecision(name: string, sid: string, capturedFace: Option<string>, voicePath: Option<string>,
                        files: set<string>, faces: seq<Encoding>): (r: SaveOutcome)
    ensures r == Saved <==>
      name != [] && sid != [] && capturedFace.Some? && capturedFace.value != [] &&
      voicePath.Some? && voicePath.value != [] && capturedFace.value in files && |faces| > 0
    ensures r == Incomplete <==>
      name == [] || sid == [] || capturedFace.None? || capturedFace.value == [] ||
      voicePath.None? || voicePath.value == []
  {
    if name == [] || sid == [] || capturedFace.None? || capturedFace.value == [] ||
       voicePath.None? || voicePath.value == [] then Incomplete
    else if capturedFace.value !in files then FaceMissing
    else if faces == [] then NoFaceFound
    else Saved
  }

  /** Nothing in the decision ties the captures to the id being saved: captures made
      under one id are saved under any other. */
  lemma SaveIgnoresCaptureId(name: string, sid: string, other: string, files: set<string>, faces: seq<Encoding>)
    requires name != [] && sid != [] && other != [] && sid != other
    requires FacePath(other) in files && |faces| > 0
    ensures SaveDecision(name, sid, Some(FacePath(other)), Some(VoicePath(other)), files, faces) == Saved
  {
  }

  class RegisterStudentWindow {
    const db: Database
    const media: MediaStore
    /** The text of the name and id fields. */
    var nameText: string
    var idText: string
    /** `self.captured_face` and `self.voice_path`; `None` until captured. */
    var capturedFace: Option<string>
    var voicePath: Option<string>

    constructor (db: Database, media: MediaStore)
      ensures this.db == db && this.media == media
      ensures nameText == [] && idText == [] && capturedFace == None && voicePath == None
    {
      this.db := db;
      this.media := media;
      nameText, idText := [], [];
      capturedFace, voicePath := None, None;
    }

    /** Typing into the two fields. */
    method SetFields(name: string, sid: string)
      modifies this`nameText, this`idText
      ensures nameText == name && idText == sid
    {
      nameText, idText := name, sid;
    }

    /** `capture_image`: with a frame read and an id typed, the frame is written to
        `students/{id}_face.jpg` and that path remembered; otherwise nothing changes. */
    method CaptureImage(frameRead: bool)
      modifies media, this`capturedFace
      ensures frameRead && idText != [] ==>
        capturedFace == Some(FacePath(idText)) && media.files == old(media.files) + {FacePath(idText)}
      ensures !(frameRead && idText != []) ==>
        capturedFace == old(capturedFace) && media.files == old(media.files)
    {
      if frameRead {
        var sid := idText;
        if sid == [] {
          return;
        }
        var path := FacePath(sid);
        media.Write(path);
        capturedFace := Some(path);
      }
    }

    /** `record_voice`: with an id typed, five seconds are recorded to
        `students/{id}_voice.wav` and that path remembered; otherwise nothing changes. */
    method RecordVoice()
      modifies media, this`voicePath
      ensures idText != [] ==>
        voicePath == Some(VoicePath(idText)) && media.files == old(media.files) + {VoicePath(idText)}
      ensures idText == [] ==> voicePath == old(voicePath) && media.files == old(media.files)
    {
      var sid := idText;
      if sid == [] {
        return;
      }
      var path := VoicePath(sid);
      media.Write(path);
      voicePath := Some(path);
    }

    /** `save_data`: `faces` are the encodings found in the captured image. Only a
        `Saved` outcome calls `save_student`, which stores the first encoding (and
        leaves the table alone for an id already registered). */
    method SaveData(faces: seq<Encoding>) returns (outcome: SaveOutcome)
      requires db.Valid()
      modifies db`students
      ensures db.Valid()
      ensures outcome == SaveDecision(nameText, idText, capturedFace, voicePath, media.files, faces)
      ensures outcome != Saved ==> db.students == old(db.students)
      ensures outcome == Saved && !HasStudent(old(db.students), idText) ==>
        db.students == old(db.students) + [StudentRow(idText, nameText, faces[0], voicePath.value)]
      ensures outcome == Saved && HasStudent(old(db.students), idText) ==> db.students == old(db.students)
    {
      var name, sid := nameText, idText;
      if name == [] || sid == [] || capturedFace.None? || capturedFace.value == [] ||
         voicePath.None? || voicePath.value == [] {
        return Incomplete;
      }
      if capturedFace.value !in media.files {
        return FaceMissing;
      }
      if faces == [] {
        return NoFaceFound;
      }
      db.SaveStudent(sid, name, faces[0], voicePath.value);
      outcome := Saved;
    }
  }
}
