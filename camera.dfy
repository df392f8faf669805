/** The webcam as the stand-alone capture loops see it: each `video.read()` either fails
    or yields the faces found in the frame, the time it was taken, and whether `q` was
    pressed while it was shown. */
module Camera {
  import opened Clock
  import opened Matching

  datatype Frame = Unreadable | Captured(faces: seq<Face>, now: DateTime, quitPressed: bool)

  /** How a stand-alone session ends. `FramesExhausted` stands for a camera that is
      still delivering when the modelled frames run out. */
  datatype SessionEnd = CameraUnavailable | QuitPressed | KeyErrorRaised | VoiceFallbackRaised | FramesExhausted

  /** Every captured face has one distance per known encoding, as `face_distance` returns,
      and every capture time is a printable date. */
  predicate FramesFit(frames: seq<Frame>, known: nat)
  {
    forall i :: 0 <= i < |frames| && frames[i].Captured? ==>
      ValidDateTime(frames[i].now) && DistancesFit(frames[i].faces, known)
  }

  predicate DistancesFit(faces: seq<Face>, known: nat)
  {
    forall f :: 0 <= f < |faces| ==> |faces[f].distances| == known
  }
}
