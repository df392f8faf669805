# EDUSCAN attendance core in Dafny

EDUSCAN is a desktop attendance system for a school. The administrator:

- logs in with fixed credentials;
- registers students with a face photo and a voice sample;
- groups students into units (courses);
- takes attendance per unit by face or by voice, through a Qt window.

Separate stand-alone scripts run a camera loop that marks students by face only. Every mark goes to two places:

- an `attendance` table in SQLite;
- an `attendance_logs.json` file, which the loops consult so that a student is marked at most once per day.

This project models the core of that system and proves properties of the model:

- the SQLite tables and their operations (`database/student_db.py`);
- face-distance matching with tolerances 0.5 and 0.45;
- the JSON log and its "already logged today" checks;
- the Qt attendance window;
- the two stand-alone capture loops;
- the face engine;
- the unit, student and attendance management windows;
- login, the theme switcher, the splash screen and student registration.

How the model is laid out:

- **Pure code** (matching rules, text operations, timestamp formats, SQL queries) is written as functions and lemmas.
- **Objects whose methods update fields** are classes: the database, the JSON log file, the media folder and each window. Their fields are assigned by methods with `modifies` clauses.
- **Loops in the source** are `while` loops with invariants, each proved against a specification function.

The camera, the face detector, the speech engine and the clock do not run inside the model. Their results are inputs:

- a `Face` is its list of distances to the known encodings;
- a `Frame` is the faces read from the camera, the clock reading and whether `q` was pressed;
- heard text is an `Option<string>`;
- a voice similarity is a real number.

The main results proved:

- **Attendance window.** One recognition pass of `update_frame` marks exactly the marks of `FrameMarks`:
  - each mark is a face whose nearest encoding is within 0.5;
  - none was already in the session set or in today's records for the unit;
  - no student is marked twice;
  - every recognised face whose student was not yet marked gets a mark.

  The attendance rows, the JSON records and the session set are extended by exactly those marks. The JSON file never gains two records for the same student, unit and day.
- **Stand-alone loops.** Each loop's marks and the way its session ends are exactly those of a recursive session function over the frames (`CaptureSession`, `RecognizerSession`). Both loops keep the same facts across a whole session, keyed on the student only. They differ on a frame whose first recognised student is already marked: the capture loop stops looking there, the recognizer goes on to the next face. A lemma exhibits such a frame.
- **Face engine.**
  - `encode_faces` keeps exactly the files that end in `_face.jpg` and show a face.
  - It derives the name by deleting every occurrence of the suffix, so `a_face.jpg_face.jpg` is encoded as `a`.
  - `recognize_face_live` logs the first flagged encoding, which need not be the nearest one.
- **Unit attendance view.** It shows exactly the attendance rows of students assigned to the unit, with their registered names, newest first. Filtering keeps that order.
- **Unit management.** Saving an assignment replaces the unit's students by the selection and leaves every other unit unchanged. Every 6-character password over `A-Z0-9` can be drawn.
- **Login, theme, registration, student list.**
  - Login accepts exactly `admin`, padded with any white space, together with `admin123` as typed.
  - Toggling the theme twice restores it.
  - Deleting a student removes the row and both media files.

## Model

| member | source | states |
|---|---|---|
| Matching.ArgMin | run_attendance.py:298 | the index of a smallest distance, and the first such index |
| Matching.BestMatch | run_attendance.py:295-302 | a match exists iff some distance is within the tolerance; the match is a nearest encoding, the first among equals |
| Matching.IndexOfTrue | face_engine/recognizer.py:74-75 | `matches.index(True)` is defined iff a flag is true; it is the first true flag |
| Matching.FirstWithinVersusBestMatch | face_engine/recognizer.py:69-77 | the first-flagged rule and the nearest-flagged rule accept the same faces |
| Matching.FirstWithinIsNotNearest | face_engine/recognizer.py:74-77 | with distances 0.4 and 0.1, the live recogniser picks encoding 0 while the nearest is encoding 1 |
| Matching.LiveAcceptanceImpliesCaptureAcceptance | face_engine/recognizer.py:69-71 | a face accepted at 0.45 is also accepted at 0.5 |
| Matching.IdenticalEncodingAccepted | run_attendance.py:292-300 | a distance of 0 to a known encoding is accepted at every positive tolerance |
| Matching.FirstAcceptedFace | run_attendance_capture.py:103-112 | the first face with an accepted nearest match: all earlier faces have none |
| Text.LeadingSpaces | gui/login.py:93 | the count of leading characters that `strip` removes: all white space, followed by a non-space or the end |
| Text.TrailingSpaces | gui/manage_units.py:96-97 | the same count for the end of the text |
| Text.StripEmpty | gui/manage_units.py:99 | `strip()` is empty iff the input is all white space; otherwise the result neither starts nor ends with white space |
| Text.Strip | gui/login.py:93 | `strip()` is no longer than its input, and a non-empty result neither starts nor ends with white space |
| Text.StripParts | gui/login.py:93 | a text is its stripped form with all-white-space texts on both sides |
| Text.StripSurroundingSpace | gui/login.py:93 | white space on both sides of a text not bordered by white space is exactly what `strip` removes |
| Text.StripInside | gui/login.py:93 | the stripped text occurs in the original one |
| Text.Lower | gui/view_students.py:135 | `lower()` keeps the length, maps each ASCII capital to its small letter and keeps every other character, so no capital remains |
| Text.LowerIdempotent | gui/view_attendance.py:98-101 | lowering twice is lowering once |
| Text.ContainsAt | gui/view_students.py:138 | a text that occurs at some position is found by `in` |
| Text.ContainsOccurs | gui/view_students.py:138 | conversely, `in` holds only when the text occurs at some position, so `in` is characterised both ways |
| Text.Contains | gui/view_students.py:138 | a text found by `in` is no longer than the text it is found in |
| Text.ContainsEmpty | gui/view_students.py:138 | the empty query occurs in every text |
| Text.RemoveAll | face_engine/recognizer.py:34 | `replace(pat, "")` never lengthens the text |
| Text.RemoveAllOfSuffix | face_engine/recognizer.py:34 | deleting the pattern from `x + pat` gives `x` when `x` never holds the pattern's first character |
| Text.RemoveAllLeading | face_engine/recognizer.py:34 | a leading occurrence of the pattern is deleted |
| Text.RemoveAllKeeps | face_engine/recognizer.py:34 | a first character that cannot start the pattern is kept |
| Seqs.Filter | gui/view_students.py:136-139 | a list comprehension keeps only elements of the input that pass, and every element that passes |
| Seqs.FilterIsSubsequence | gui/view_attendance.py:99-102 | the kept rows keep their relative order |
| Seqs.FilterKeepsAll | gui/view_students.py:136-139 | a filter every element passes keeps the list |
| Seqs.FilterDropsAll | gui/view_students.py:136-139 | a filter no element passes keeps nothing |
| Seqs.FilterConcat | face_engine/recognizer.py:31-42 | filtering a concatenation filters each part |
| Clock.Digit | database/student_db.py:40 | a decimal digit character for 0-9, whose value is that digit |
| Clock.Pad2 | database/student_db.py:40 | `%m`, `%d`, `%H`, `%M`, `%S`: two digits whose value is the field |
| Clock.Pad4 | database/student_db.py:40 | `%Y`: four digits whose value is the year |
| Clock.FormatDate | run_attendance.py:88 | `%Y-%m-%d`: ten characters, a dash at positions 4 and 7 |
| Clock.FormatTimestamp | run_attendance.py:110 | `%Y-%m-%d %H:%M:%S`: nineteen characters whose first ten are the date |
| Clock.FormatDateInjective | run_attendance.py:88 | two readings give the same date text iff they fall on the same day |
| Clock.TimestampOnDay | run_attendance.py:98 | a stamp written at `t` starts with the date of `d` iff `t` and `d` are the same day |
| JsonLog.StudentLookup | run_attendance_capture.py:35-37 | a `True` answer has a record of the student whose stamp starts with the day; a `False` answer means every record carries a `student_id`, and the student's records carry stamps of other days |
| JsonLog.StudentLookupCases | run_attendance_capture.py:35-37 | the scan raises iff the first record it does not pass over lacks a key it indexes; it answers `True` iff that record is a hit; `False` iff it passes over every record |
| JsonLog.PassedBeforeCons | run_attendance_capture.py:35 | passing over the first `n` records is passing over the first and then `n - 1` of the rest |
| JsonLog.StudentLookupWellKeyed | run_attendance_capture.py:36 | on records that carry both keys the scan never raises and answers whether such a record exists |
| JsonLog.MatchesUnitDay | run_attendance.py:95-99 | a record that satisfies the unit-keyed test of a non-empty day carries a stamp |
| JsonLog.LoggedToday | run_attendance.py:87-101 | a `True` answer means the file exists and has a record of the student and unit stamped on that day |
| JsonLog.StudentLoggedToday | run_attendance_capture.py:29-38 | an absent file answers `False`; `True` needs a file; a file whose records carry both keys always answers |
| JsonLog.LoggedAfterSave | run_attendance.py:87-119 | after a record for a student and unit, the unit-keyed check answers `True` for them all day |
| JsonLog.SaveLeavesOthers | run_attendance.py:95-99 | a record changes the unit-keyed answer only for its own student, unit and day |
| JsonLog.StudentEntryInvisibleToUnitCheck | run_attendance.py:97 | a record with no `unit_id` key never satisfies the unit-keyed check of a real unit |
| JsonLog.StampPrefix | run_attendance.py:98 | the date prefix of a stored stamp decides the day test |
| JsonLog.GuardedSaveKeepsNoDuplicates | run_attendance.py:304-315 | appending only after a `False` answer keeps the file free of two records for the same student, unit and day |
| JsonLog.GuardedStudentSaveKeepsNoDuplicates | run_attendance_capture.py:116-128 | the same for student-only records |
| JsonLog.AppendedTwice | run_attendance.py:112-119 | two appends are one append of both batches |
| JsonLog.LogFile.constructor | run_attendance.py:89-90 | the file holds the given records, or is absent |
| JsonLog.LogFile.AlreadyLoggedToday | run_attendance.py:87-101 | the loop's answer is the unit-keyed check of student, unit and today's date |
| JsonLog.LogFile.AlreadyLoggedTodayByStudent | run_attendance_capture.py:29-38 | `False` for an absent file, else the answer of the student-only scan |
| JsonLog.LogFile.SaveToJsonLog | run_attendance.py:104-119 | the file gains exactly one record with the student, name, unit and stamp |
| JsonLog.LogFile.SaveStudentToJsonLog | run_attendance_capture.py:41-55 | the file gains exactly one record with no unit key |
| StudentDb.AttendanceRowsAppend | database/student_db.py:41-42 | the rows of two batches are the rows of each batch in order |
| StudentDb.UnitIdsBelowAppend | gui/manage_units.py:107-111 | an inserted unit takes the next autoincrement id, and ids stay below the counter |
| StudentDb.Database.constructor | database/student_db.py:9 | a fresh database file: no tables, no rows |
| StudentDb.Database.InitDb | database/student_db.py:7-33 | `students` and `attendance` exist afterwards; no row changes |
| StudentDb.Database.InsertUnit | gui/manage_units.py:107-112 | the unit row is appended with the next id |
| StudentDb.Database.LogAttendance | database/student_db.py:37-44 | exactly one row with id, name and formatted stamp is appended |
| StudentDb.Database.SaveStudent | database/student_db.py:46-56 | a new id appends a row; an id already present leaves the table as it was (`IntegrityError`) |
| StudentDb.Database.LoadAllEncodings | database/student_db.py:58-75 | ids, names and encodings of every student row, index by index |
| StudentDb.SaveThenLoad | database/student_db.py:46-75 | a saved new student is loaded last, with its name and encoding |
| Media.FaceFileName | gui/register_student.py:109 | `{id}_face.jpg` starts with the id and ends with the suffix |
| Media.DatasetPath | gui/register_student.py:109 | a path in the `students` folder |
| Media.FacePath | gui/view_students.py:121 | the face image path of an id |
| Media.VoicePath | gui/view_students.py:122 | the voice recording path of an id |
| Media.PathParts | gui/register_student.py:138 | a media path is the folder, the id and the suffix |
| Media.MediaPathsDistinct | gui/view_students.py:121-126 | distinct ids give distinct paths, and no face path is a voice path |
| Media.MediaStore.constructor | gui/view_students.py:123 | the folder holds the given files |
| Media.MediaStore.Write | gui/register_student.py:112 | the file is present afterwards |
| Media.MediaStore.RemoveIfExists | gui/view_students.py:123-126 | the file is absent afterwards; no other file changes |
| FaceEngine.DerivedName | face_engine/recognizer.py:34 | the derived name is no longer than the file name |
| FaceEngine.EncodeFaces | face_engine/recognizer.py:24-47 | one first encoding and one derived name per file that ends in `_face.jpg` and shows a face, in listing order |
| FaceEngine.RegisteredFaceName | face_engine/recognizer.py:34 | a file saved by registration for an id without `_` encodes under that id |
| FaceEngine.DerivedNameRemovesEveryOccurrence | face_engine/recognizer.py:34 | `a_face.jpg_face.jpg` and `a_face.jpg` are both encoded under the name `a` |
| FaceEngine.LiveMarks | face_engine/recognizer.py:68-78 | at most one mark per face |
| FaceEngine.LiveMatch | face_engine/recognizer.py:69-77 | the live rule finds a student iff the nearest-match rule at 0.45 does; the student found is within 0.45 |
| FaceEngine.FaceMarks | face_engine/recognizer.py:74-78 | one face yields at most one mark |
| FaceEngine.LiveMarksStep | face_engine/recognizer.py:68-78 | the marks of one more face are those of the earlier faces followed by that face's mark |
| FaceEngine.LiveMarksCount | face_engine/recognizer.py:74-78 | exactly one mark per recognised face, with no check for earlier marks |
| FaceEngine.LiveMarksAreMatches | face_engine/recognizer.py:74-78 | face by face: the i-th mark of a frame is the first student flagged at 0.45 for the i-th recognised face, in the order of the faces |
| FaceEngine.LiveSession | face_engine/recognizer.py:59-87 | every mark of the session carries a valid clock reading |
| FaceEngine.StampAllConcat | database/student_db.py:40 | stamping two batches is stamping each and joining them |
| FaceEngine.LogLiveFrame | face_engine/recognizer.py:68-78 | the attendance table gains exactly the rows of the frame's live marks |
| FaceEngine.LiveRowsStep | face_engine/recognizer.py:74-78 | one more face adds its live mark's row, if any |
| FaceEngine.LogLiveFrameAfter | face_engine/recognizer.py:59-78 | one frame extends the rows of the session so far by that frame's rows |
| FaceEngine.RecognizeFaceLive | face_engine/recognizer.py:50-90 | no students: nothing happens; otherwise the table gains exactly the rows of the live session |
| FaceEngine.MatchVoiceNeedsFiles | face_engine/recognizer.py:94-96 | a missing enrolled or test recording gives `False` at every similarity |
| FaceEngine.MatchVoiceMonotone | face_engine/recognizer.py:106 | with both files present, a match survives a higher similarity or a lower threshold; a similarity at or below the threshold never matches |
| StudentSession.MarkAttendance | run_attendance_capture.py:67-69 | one attendance row and one student-only record |
| StudentSession.RecordMark | run_attendance_capture.py:127-128 | the marks, the session set, the rows and the records grow by the new mark; its student is fresh and registered |
| StudentSession.ExtendMarks | run_attendance_capture.py:116-128 | a registered student not yet in the session keeps the marks distinct and known |
| StudentSession.AppendMark | run_attendance_capture.py:127 | one more mark extends the rows, the records and the freshness facts |
| StudentSession.RowsAppendOne | database/student_db.py:41-42 | one more mark appends its row |
| StudentSession.EntriesAppendOne | run_attendance_capture.py:53 | one more mark appends its record |
| StudentSession.FreshAfterMark | run_attendance_capture.py:116 | a mark made after a `False` answer was fresh when made |
| CaptureLoop.CaptureDecision | run_attendance_capture.py:101-130 | only the first accepted face counts: no decision iff no face is accepted; a `KeyError` iff that face's JSON check raises; otherwise a new mark (fresh in the file and the set) or "already marked" |
| CaptureLoop.CaptureFrame | run_attendance_capture.py:103-130 | the face loop's result is the capture decision |
| CaptureLoop.FirstAcceptedFaceAt | run_attendance_capture.py:112-130 | the face the loop stops at is the first accepted face |
| CaptureLoop.CaptureStep | run_attendance_capture.py:93-153 | one frame keeps the session facts; the marks grow by exactly the decision's new mark, and the session ends on a `KeyError`, the voice fallback or `q`, in that order |
| CaptureLoop.CaptureRun | run_attendance_capture.py:92-156 | a run never ends with the webcam closed, and only extends the marks it started with |
| CaptureLoop.CaptureRunCaptured | run_attendance_capture.py:97-153 | a readable frame either ends the run with its decision's marks or passes them to the next frame |
| CaptureLoop.CaptureRunUnreadable | run_attendance_capture.py:93-95 | an unreadable frame is skipped |
| CaptureLoop.CaptureRunVoiceFallback | run_attendance_capture.py:132-135 | a run ends in the voice fallback only at a readable frame with faces, none of them accepted |
| CaptureLoop.CaptureSession | run_attendance_capture.py:78-156 | the session ends with the webcam closed iff it did not open, and then marks nothing |
| CaptureLoop.RunCaptureSession | run_attendance_capture.py:78-156 | the marks and the way the loop ends are those of `CaptureSession`; a voice fallback happens at a frame with faces and none accepted; the marks are distinct, registered, fresh when made, and exactly what the table and the file gain |
| CaptureLoop.CaptureFrames | run_attendance_capture.py:90-153 | the `while True` loop's marks and end are the run's; the table and the file gain exactly the marks, which are distinct, registered and fresh when made |
| CaptureLoop.CaptureRunAt | run_attendance_capture.py:92-153 | the run from frame `i` either skips it, ends there with its marks, or continues from frame `i + 1` |
| RecognizerLoop.RecognizerDecision | run_recognizer.py:65-101 | a new mark is an accepted face's student who is neither logged today nor in the set; no mark means every accepted face's student is already marked |
| RecognizerLoop.SkippedBeforeCons | run_recognizer.py:65-80 | passing over the first `n` faces is passing over the first face and then `n - 1` of the rest |
| RecognizerLoop.RecognizerDecisionFirst | run_recognizer.py:65-101 | the decision is made at the first face the loop does not pass over: no mark iff it passes over all, a `KeyError` iff that face's JSON check raises, otherwise that face's new mark |
| RecognizerLoop.RecognizerFrame | run_recognizer.py:65-101 | the face loop's result is the recognizer decision |
| RecognizerLoop.CaptureStopsWhereRecognizerContinues | run_recognizer.py:79-80 | a frame where the capture loop marks nobody and the recognizer marks the second face |
| RecognizerLoop.RecognizerStep | run_recognizer.py:57-106 | one frame keeps the session facts; the marks grow by exactly the decision's new mark, and the session ends on a `KeyError` or `q` |
| RecognizerLoop.RecognizerRun | run_recognizer.py:56-109 | a run never ends with the camera closed or in a voice fallback, and only extends the marks it started with |
| RecognizerLoop.RecognizerRunCaptured | run_recognizer.py:61-106 | a readable frame either ends the run with its decision's marks or passes them to the next frame |
| RecognizerLoop.RecognizerRunUnreadable | run_recognizer.py:57-59 | an unreadable frame is skipped |
| RecognizerLoop.RecognizerSession | run_recognizer.py:44-109 | the session ends with the camera closed iff it did not open, and then marks nothing |
| RecognizerLoop.RunRecognizerSession | run_recognizer.py:44-109 | the marks and the way the loop ends are those of `RecognizerSession`, never a voice fallback; the marks are distinct, registered, fresh when made, and exactly what the table and the file gain |
| RecognizerLoop.RecognizerFrames | run_recognizer.py:54-106 | the `while True` loop's marks and end are the run's; the table and the file gain exactly the marks, which are distinct, registered and fresh when made |
| RecognizerLoop.RecognizerRunAt | run_recognizer.py:56-106 | the run from frame `i` either skips it, ends there with its marks, or continues from frame `i + 1` |
| AttendanceWindow.FrameMarksSkip | run_attendance.py:295-305 | a face with no accepted match, or one already marked, marks nothing |
| AttendanceWindow.FrameMarks | run_attendance.py:291-316 | a pass makes at most one mark per face |
| AttendanceWindow.FrameMarksTake | run_attendance.py:300-316 | an accepted face not yet marked marks its student and adds the pair to the file and the set |
| AttendanceWindow.LoggedTodayMonotone | run_attendance.py:117 | appending records never withdraws a `True` answer |
| AttendanceWindow.AcceptedMarks | run_attendance.py:291-302 | at most one accepted student per face |
| AttendanceWindow.FrameMarksAreAccepted | run_attendance.py:291-316 | the marks of a pass are recognised faces in face order |
| AttendanceWindow.DistinctCons | run_attendance.py:316 | a mark whose pair is in the set differs from every fresh mark after it |
| AttendanceWindow.FrameMarksFresh | run_attendance.py:304-305 | no mark was already in the set or in today's records for the unit |
| AttendanceWindow.FrameMarksDistinct | run_attendance.py:304-316 | a pass marks each student at most once |
| AttendanceWindow.FrameMarksComplete | run_attendance.py:291-316 | every recognised face's student ends up marked, in the set, or in today's records |
| AttendanceWindow.BatchAppend | run_attendance.py:314-316 | one more mark extends the batch's rows and records |
| AttendanceWindow.VoiceLookup | run_attendance.py:383-387 | `fetchone` finds a row iff some student matches; it is the first matching row |
| AttendanceWindow.VoiceMatches | run_attendance.py:383-387 | a row matched by `LIKE %text%` has a name or id at least as long as the text |
| AttendanceWindow.VoiceMatchesEmptyAndCase | run_attendance.py:383-387 | the empty text matches every row, and the match ignores the case of the text |
| AttendanceWindow.VoiceMarks | run_attendance.py:377-397 | exactly one mark iff text was heard, a student matched and the pair was not yet marked |
| AttendanceWindow.EmptyBatch | run_attendance.py:291 | an empty batch changes nothing |
| AttendanceWindow.KeysAppend | run_attendance.py:316 | one more mark adds its pair to the set |
| AttendanceWindow.Window.constructor | run_attendance.py:154-219 | the combo box lists every unit id in order; nothing is running |
| AttendanceWindow.Window.StartCamera | run_attendance.py:221-269 | a missing or zero unit, a closed camera or an empty database leave the session idle; otherwise the encodings are loaded and the timer runs |
| AttendanceWindow.Window.UpdateFrame | run_attendance.py:271-337 | only a readable frame while running counts; every fifth one marks exactly `FrameMarks`, which extend rows, records and set |
| AttendanceWindow.Window.RecognizeFaces | run_attendance.py:291-323 | the face loop marks exactly `FrameMarks`; the file stays free of same-day duplicates |
| AttendanceWindow.Window.RecognizeFace | run_attendance.py:292-316 | one face keeps the loop's facts |
| AttendanceWindow.Window.MarkInBatch | run_attendance.py:314-316 | one new mark keeps the loop's facts |
| AttendanceWindow.Window.MarkPair | run_attendance.py:314-316 | one row, one unit-keyed record, and the pair in the set |
| AttendanceWindow.Window.StartVoiceAttendance | run_attendance.py:339-366 | the window stays consistent; a missing or zero unit changes nothing else; otherwise running with the voice timer |
| AttendanceWindow.Window.ProcessVoiceInput | run_attendance.py:368-411 | nothing while stopped; otherwise exactly `VoiceMarks` is marked |
| AttendanceWindow.Window.StopAttendance | run_attendance.py:413-426 | stopped, both timers off, the camera released, the set emptied |
| AttendanceWindow.Window.Close | run_attendance.py:428-434 | stopped, the camera timer off, an open camera released; the set is kept |
| ManageUnits.AssignedTo | gui/manage_units.py:246-250 | the students assigned to a unit, from the assignment rows |
| ManageUnits.AssignedToConcat | gui/manage_units.py:283-290 | the assignments of two row lists are those of each list |
| ManageUnits.AssignedToMembers | gui/manage_units.py:246-250 | a student is assigned iff there is a row for it and the unit |
| ManageUnits.OtherUnits | gui/manage_units.py:279-282 | the delete keeps exactly the rows of other units |
| ManageUnits.AssignedToInserted | gui/manage_units.py:283-290 | the inserted rows assign exactly the selection |
| ManageUnits.AssignedToOtherUnits | gui/manage_units.py:279-282 | after the delete nobody is assigned to the unit |
| ManageUnits.SavedSelection | gui/manage_units.py:273-291 | after saving, the unit's students are the selection and every other unit's are unchanged |
| ManageUnits.SaveKeepsOtherRows | gui/manage_units.py:279-290 | every row of another unit survives the save |
| ManageUnits.FilterOfOther | gui/manage_units.py:279-282 | the delete keeps rows of other units in order |
| ManageUnits.Password | gui/manage_units.py:177 | six characters, each from `A-Z0-9` |
| ManageUnits.AlphabetChar | gui/manage_units.py:177 | each draw picks an alphabet character |
| ManageUnits.AlphabetIndex | gui/manage_units.py:177 | each alphabet character has a draw that picks it |
| ManageUnits.AlphabetLetters | gui/manage_units.py:177 | the 26 upper-case letters are in the alphabet |
| ManageUnits.AlphabetDigits | gui/manage_units.py:177 | the 10 digits are in the alphabet |
| ManageUnits.EveryPasswordReachable | gui/manage_units.py:177 | every 6-character word over the alphabet is drawn by some choice |
| ManageUnits.ManageUnitsWindow.constructor | gui/manage_units.py:34-65 | the `units` and `student_units` tables exist |
| ManageUnits.ManageUnitsWindow.AddUnit | gui/manage_units.py:95-120 | a unit is added iff both stripped fields are non-empty, with the stripped texts |
| ManageUnits.ManageUnitsWindow.AssignStudents | gui/manage_units.py:229-259 | one item per student, in order, selected iff already assigned |
| ManageUnits.ManageUnitsWindow.SaveAssignedStudents | gui/manage_units.py:273-291 | the unit's rows are replaced by one row per selected student |
| ManageUnits.ManageUnitsWindow.PrepareForAttendance | gui/manage_units.py:173-179 | the active unit holds the id, name, code and the drawn password |
| ManageUnits.ManageUnitsWindow.SetActiveUnit | gui/manage_units.py:332-334 | the active unit holds only the id; name, code and password are gone |
| ManageUnits.SaveThenReopen | gui/manage_units.py:229-291 | reopening the dialog after a save preselects exactly the saved students |
| ManageUnits.PrepareThenSetActive | gui/manage_units.py:173-179 | setting a unit active drops the password written by prepare |
| ViewStudents.Lookup | gui/view_students.py:61-65 | `fetchone` finds a row iff the id is registered; it is the first such row |
| ViewStudents.LookupUnique | gui/view_students.py:61-67 | with unique ids the row found is the one with that id |
| ViewStudents.Filtered | gui/view_students.py:134-140 | a row is shown iff the lowered query is in the lowered id or name |
| ViewStudents.FilteredKeepsOrder | gui/view_students.py:136-139 | the search keeps the rows' order |
| ViewStudents.EmptySearchKeepsAll | gui/view_students.py:134-140 | an empty search shows every row |
| ViewStudents.SearchIgnoresQueryCase | gui/view_students.py:135 | a query and its lowered form show the same rows |
| ViewStudents.ViewStudentsWindow.constructor | gui/view_students.py:13-51 | the table is loaded on opening |
| ViewStudents.ViewStudentsWindow.LoadTable | gui/view_students.py:53-72 | one row per student, in load order, with the first row's name and voice path |
| ViewStudents.ViewStudentsWindow.FilterTable | gui/view_students.py:134-140 | the shown rows are the filtered rows |
| ViewStudents.ViewStudentsWindow.DeleteStudent | gui/view_students.py:101-132 | when confirmed the id is gone, both media files are removed and the table is reloaded with one entry per remaining student, from each id's first row; otherwise nothing changes |
| ViewStudents.FilterDropsId | gui/view_students.py:114-116 | after the delete the id has no row |
| ViewStudents.FilterKeepsUnique | gui/view_students.py:114-116 | the delete keeps the other ids unique |
| ViewAttendance.TextLeqTotal | gui/view_attendance.py:83 | any two stamps are ordered |
| ViewAttendance.TextLeqTransitive | gui/view_attendance.py:83 | the text order is transitive |
| ViewAttendance.TextLeqRefl | gui/view_attendance.py:83 | the text order is reflexive |
| ViewAttendance.NewestFirstPairwise | gui/view_attendance.py:83 | order between neighbours gives order between any two rows |
| ViewAttendance.Insert | gui/view_attendance.py:83 | inserting keeps the rows newest first and adds exactly the row |
| ViewAttendance.ConsNewestFirst | gui/view_attendance.py:83 | a row at least as new as the first can go in front |
| ViewAttendance.NewestFirstTail | gui/view_attendance.py:83 | the rows after the first stay newest first |
| ViewAttendance.SortNewestFirst | gui/view_attendance.py:83 | the result is newest first and a permutation of the input |
| ViewAttendance.NamesOfMembers | gui/view_attendance.py:80 | a name is joined iff a student row carries the id and that name |
| ViewAttendance.Repeat | gui/view_attendance.py:81 | the copies hold only the row, and hold it iff there is at least one |
| ViewAttendance.JoinOne | gui/view_attendance.py:80-81 | the joined rows of one attendance row: its id and stamp with each joined name |
| ViewAttendance.FromAttendanceCons | gui/view_attendance.py:78-79 | a row comes from the first attendance row or from the others |
| ViewAttendance.JoinedMembers | gui/view_attendance.py:77-82 | a joined row comes from an attendance row, a name under its id and an assignment to the unit |
| ViewAttendance.UnitAttendance | gui/view_attendance.py:77-85 | the query's rows are newest first |
| ViewAttendance.UnitAttendanceRows | gui/view_attendance.py:77-85 | a row is shown iff it is an attendance row of a registered student assigned to the unit, with that student's name |
| ViewAttendance.JoinOneCount | gui/view_attendance.py:80-81 | one attendance row yields a row with its id and stamp once per copy of each joined name, and no other row |
| ViewAttendance.JoinedCount | gui/view_attendance.py:77-82 | a joined row appears once per matching attendance row, per student row with its name and per assignment of the student to the unit |
| ViewAttendance.UnitAttendanceCount | gui/view_attendance.py:77-85 | the rows shown keep the join's duplicates: each attendance row of the student and stamp is shown once per registered name and once per assignment to the unit |
| ViewAttendance.Filtered | gui/view_attendance.py:97-103 | a row is shown iff the lowered query is in its lowered id, name or stamp |
| ViewAttendance.FilteredKeepsOrder | gui/view_attendance.py:99-102 | the search keeps the rows' order, hence newest first |
| ViewAttendance.FilterKeepsNewestFirst | gui/view_attendance.py:99-102 | any filter keeps the rows newest first |
| ViewAttendance.ViewAttendanceWindow.constructor | gui/view_attendance.py:10-53 | the units are loaded, then the first unit's attendance |
| ViewAttendance.ViewAttendanceWindow.LoadUnits | gui/view_attendance.py:57-65 | the units are the table's rows; the first one is selected, or none when empty |
| ViewAttendance.ViewAttendanceWindow.SelectUnit | gui/view_attendance.py:67-87 | choosing a unit shows exactly its attendance |
| ViewAttendance.ViewAttendanceWindow.LoadAttendance | gui/view_attendance.py:67-87 | no selection and no units show nothing; otherwise the selected unit's attendance |
| ViewAttendance.ViewAttendanceWindow.FilterTable | gui/view_attendance.py:97-103 | the shown rows are the filtered rows |
| Login.LoginAccepts | gui/login.py:92-99 | `admin` with any white space around it, and `admin123`, open the dashboard |
| Login.HandleLogin | gui/login.py:92-105 | the dashboard opens iff the name is `admin` padded with white space and the password is exactly `admin123` |
| Login.StripIsAdmin | gui/login.py:93-94 | the stripped name is `admin` iff the name is `admin` with white space on both sides |
| Login.LoginNeedsAdminName | gui/login.py:92-105 | as a consequence, an accepted name contains `admin` and the password is exactly `admin123` |
| Login.PaddedPasswordRefused | gui/login.py:94-96 | a password with anything added around it is refused |
| Theme.Toggled | theme_manager.py:23 | the toggle gives `dark` iff the theme is `light`, and always one of the two |
| Theme.ToggleTwice | theme_manager.py:22-25 | toggling twice restores the theme iff it was `light` or `dark` |
| Theme.StyleSheetPath | theme_manager.py:10 | `themes/{name}.qss`: a path in `themes` ending in `.qss`, eleven characters longer than the name |
| Theme.StyleSheetPathInjective | theme_manager.py:10 | distinct themes read distinct style sheets |
| Theme.ThemeManager.constructor | theme_manager.py:4 | the theme starts as `light` |
| Theme.ThemeManager.ApplyTheme | theme_manager.py:7-19 | the theme is recorded; the style sheet is that file's contents when it opens and an application exists, else unchanged |
| Theme.ThemeManager.ToggleTheme | theme_manager.py:22-25 | the new theme is the toggle of the old one, applied and returned |
| Splash.SplashScreen.constructor | gui/splash.py:8-63 | the five start-up messages, step 0, the label showing "Starting EduScan...", no timer running |
| Splash.SplashScreen.Start | gui/splash.py:65-69 | the callback is stored and both timers run; the step, the label and the messages shown are untouched |
| Splash.SplashScreen.UpdateMessage | gui/splash.py:71-77 | the next message is shown and the step advances; after the last one the message timer stops |
| Splash.SplashScreen.FinishSplash | gui/splash.py:79-81 | the splash is closed and the callback invoked once more; the single-shot duration timer is spent, while the message timer, the label and the step are left as they were |
| RegisterStudent.SaveDecision | gui/register_student.py:144-174 | a save happens iff every field and both captures are set, the face file exists and a face is found; `Incomplete` iff a field or capture is missing |
| RegisterStudent.SaveIgnoresCaptureId | gui/register_student.py:145-148 | captures made under one id are saved under another |
| RegisterStudent.RegisterStudentWindow.constructor | gui/register_student.py:16-83 | empty fields, nothing captured |
| RegisterStudent.RegisterStudentWindow.SetFields | gui/register_student.py:101 | the fields hold the typed text |
| RegisterStudent.RegisterStudentWindow.CaptureImage | gui/register_student.py:98-118 | with a frame and an id, the face file is written and remembered; otherwise nothing changes |
| RegisterStudent.RegisterStudentWindow.RecordVoice | gui/register_student.py:120-142 | with an id, the voice file is written and remembered; otherwise nothing changes |
| RegisterStudent.RegisterStudentWindow.SaveData | gui/register_student.py:144-179 | the outcome is `SaveDecision`; only a save of a new id appends the row with the first encoding |

## Left out

- The camera, the face detector and encoder, drawing on frames, `imshow` and `waitKey` are left out. Their results (distances, readable frames, the `q` key) are inputs.
- Text-to-speech, the microphone and Google speech recognition are left out. Heard text is an input.
- Qt widgets, dialogs, message boxes and timers are left out.
  - Timers are flags, and a tick is a method call.
  - The dialog buttons that copy or download the password are left out.
  - So are `load_units` of the unit window and the `view_students` and `view_unit_students` dialogs of `gui/manage_units.py`. They only display rows.
- Time is an input `DateTime`, and the clock does not advance within one frame. Years are limited to 1000-9999, so `%Y` is always four digits.
- Face distances, the voice similarity and the thresholds are reals, not floating point. `match_voice`'s embedding and cosine similarity are an input number. Failures of the import of `resemblyzer` (`encoder` is `None`) are left out.
- File contents are not modelled:
  - the pickle written by `encode_faces`;
  - the JSON text of `active_unit.json`;
  - the `.qss` files, whose contents are an input map;
  - the image and sound data.

  `os.makedirs` is left out. Paths are built with `/`, as on Linux.
- SQLite `LIKE` is modelled as an ASCII case-insensitive substring test. The wildcards `%` and `_` inside the heard text are not given their pattern meaning.
- `ORDER BY attendance.timestamp DESC` leaves the order of equal stamps to SQLite. The model's sort puts rows with equal stamps in one fixed order.
  - `ViewAttendance.UnitAttendance`: contents and order are stated, but not which of the possible tie orders SQLite produces.
  - The join's enumeration order is likewise one possible order.
- `str.lower` is modelled on ASCII letters only. `str.strip` uses Python's full white-space set.
- A `NULL` student name shown as `str(None)` is not modelled; names are strings.
- The `hasattr(self, 'voice_timer')` guard of `stop_attendance` is a flag.
- Exceptions inside `update_frame` that would call `stop_attendance` are not raised in the model. Every face has one distance per known encoding, which is what rules out an index error.
- Two exceptions of the stand-alone loops are modelled, and each ends the session:
  - the `KeyError` of the student-only JSON scan, in both loops (`KeyErrorRaised`);
  - the capture loop's voice fallback, which calls `match_voice` with one argument instead of two. That raises a `TypeError` (`VoiceFallbackRaised`). Its `capture_voice` recording is left out.
- A malformed or empty `attendance_logs.json` makes `json.load` raise in all three loops. This is not modelled: a file is absent or a list of records.
- JSON `null` values are not modelled: a record's key is either absent or a string.
  - A `null` timestamp would raise `AttributeError` at `.startswith`. The student-only scan treats it as a missing key, which is also an exception that ends the session. The unit-keyed check treats it as `""`, which answers `False` where the source would raise.
  - A `null` student id would compare unequal in the student-only scan, where the model raises the `KeyError` of a missing key.
- The `except` branch of `start_camera`, which sets `is_running` to `False` and releases the camera, is not modelled, because the camera and the database calls do not raise in the model. The early returns of `start_camera` and the other failure paths of `run_attendance.py` leave `is_running` unchanged, as the code does.
- `ManageUnits.ManageUnitsWindow.PrepareForAttendance` takes the unit's name and code as arguments. In `gui/manage_units.py:161` the button's lambda binds `uid` at creation but reads `name` and `code` later, so every prepare button passes the last listed unit's name and code. The model does not capture that late binding.
- Concurrency (the speech thread, the splash sound thread) is left out.
- `init_db` of `database/student_db.py` is modelled as adding the two tables. The applications never call it.
