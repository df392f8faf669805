/** Where the application keeps a student's media: the `students` directory, one
    face image and one voice recording per student id. */
module Media {
  import opened Text

  const DatasetDir: string := "students"
  const FaceSuffix: string := "_face.jpg"
  const VoiceSuffix: string := "_voice.wav"

  /** The file name `register_student` writes for a face and `encode_faces` lists. */
  function FaceFileName(sid: string): (r: string)
    ensures |r| == |sid| + |FaceSuffix| && EndsWith(r, FaceSuffix) && r[..|sid|] == sid
  {
    sid + FaceSuffix
  }

  /** `os.path.join(DATASET_DIR, file)` with the POSIX separator. */
  function DatasetPath(file: string): (r: string)
    ensures StartsWith(r, DatasetDir + "/") && r[|DatasetDir| + 1..] == file
  {
    DatasetDir + "/" + file
  }

  /** `students/{id}_face.jpg` */
  function FacePath(sid: string): (r: string)
    ensures EndsWith(r, FaceSuffix) && StartsWith(r, DatasetDir + "/")
  {
    DatasetPath(FaceFileName(sid))
  }

  /** `students/{id}_voice.wav` */
  function VoicePath(sid: string): (r: string)
    ensures EndsWith(r, VoiceSuffix) && StartsWith(r, DatasetDir + "/")
  {
    DatasetPath(sid + VoiceSuffix)
  }

  /** The id inside a media path, found by position. */
  lemma {:induction false} PathParts(sid: string, suffix: string)
    ensures var path := DatasetPath(sid + suffix);
      |path| == |DatasetDir| + 1 + |sid| + |suffix| &&
      path[|DatasetDir| + 1..|DatasetDir| + 1 + |sid|] == sid &&
      path[|DatasetDir| + 1 + |sid|..] == suffix
  {
    var path := DatasetPath(sid + suffix);
    assert path == (DatasetDir + "/") + (sid + suffix);
  }

  /** Different students never share a face or a voice file, and no face file is a
      voice file. */
  lemma MediaPathsDistinct(a: string, b: string)
    ensures a != b ==> FacePath(a) != FacePath(b) && VoicePath(a) != VoicePath(b)
    ensures FacePath(a) != VoicePath(b)
  {
    PathParts(a, FaceSuffix);
    PathParts(b, FaceSuffix);
    PathParts(a, VoiceSuffix);
    PathParts(b, VoiceSuffix);
    var f, v := FacePath(a), VoicePath(b);
    assert f[|f| - 1] == 'g' by { assert f[|f| - |FaceSuffix|..] == FaceSuffix; }
    assert v[|v| - 1] == 'v' by { assert v[|v| - |VoiceSuffix|..] == VoiceSuffix; }
  }

  /** The files on disk that the application looks at with `os.path.exists`. */
  class MediaStore {
    var files: set<string>

    constructor (files: set<string>)
      ensures this.files == files
    {
      this.files := files;
    }

    /** `cv2.imwrite` or `wav.write`: the file exists afterwards. */
    method Write(path: string)
      modifies this
      ensures files == old(files) + {path}
    {
      files := files + {path};
    }

    /** `if os.path.exists(path): os.remove(path)` */
    method RemoveIfExists(path: string)
      modifies this
      ensures files == old(files) - {path}
    {
      if path in files {
        files := files - {path};
      }
    }
  }
}
