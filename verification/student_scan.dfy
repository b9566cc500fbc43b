/** The student's side of a scan, `handleScanResult` in
    `src/components/dashboard/StudentDashboard.tsx`: it receives the lecture
    id the scanner accepted and, over the store, makes this device the
    student's only active one, looks the lecture up, and records attendance
    once. The device fingerprint and its registration flag are inputs; the
    lecture lookup's result is a parameter that may be a thrown error;
    toasts are not modelled. */
module StudentScan {
  import opened Common
  import opened Seqs
  import opened LocalDb

  datatype ScanResult =
    | NotRegistered                     // "register the device first"
    | LookupFailed                      // the lecture lookup threw
    | LectureNotFound                   // "lecture not found"
    | AlreadyAttended                   // "already recorded"
    | Recorded(record: AttendanceRecord)

  /** The store after the flow, with what the student is told. */
  datatype Step = Step(db: DB, result: ScanResult)

  /** The user's active bindings all carry this fingerprint, and one does. */
  predicate ExclusiveDevice(bindings: seq<DeviceBinding>, userId: string, fingerprint: string) {
    && (forall k :: 0 <= k < |bindings| && bindings[k].userId == userId && IsActive(bindings[k])
          ==> bindings[k].fingerprint == fingerprint)
    && (exists k :: 0 <= k < |bindings| && bindings[k].userId == userId
          && bindings[k].fingerprint == fingerprint && IsActive(bindings[k]))
  }

  /** `existingList?.find((r) => r.lecture_id === lectureId)` is found. */
  function ListsLecture(rows: seq<AttendanceRow>, lectureId: string): (found: bool)
    ensures found <==> exists k :: 0 <= k < |rows| && rows[k].record.lectureId == lectureId
  {
    Find(rows, (row: AttendanceRow) => row.record.lectureId == lectureId).Some?
  }

  /** The student's attendance listing shows a lecture exactly when a record
      for the pair exists. */
  lemma ListingShowsRecord(db: DB, studentId: string, lectureId: string)
    ensures ListsLecture(GetAttendanceByStudent(db, studentId), lectureId)
            <==> HasRecord(db.attendance, lectureId, studentId)
  {
    if ListsLecture(GetAttendanceByStudent(db, studentId), lectureId) {
      ListedOnlyIfRecorded(db, studentId, lectureId);
    }
    if HasRecord(db.attendance, lectureId, studentId) {
      RecordedIsListed(db, studentId, lectureId);
    }
  }

  lemma ListedOnlyIfRecorded(db: DB, studentId: string, lectureId: string)
    requires ListsLecture(GetAttendanceByStudent(db, studentId), lectureId)
    ensures HasRecord(db.attendance, lectureId, studentId)
  {
    var rows := GetAttendanceByStudent(db, studentId);
    var k :| 0 <= k < |rows| && rows[k].record.lectureId == lectureId;
    assert rows[k] in rows;
    StoredRecordCounts(db.attendance, rows[k].record);
  }

  /** A stored record is a record for its own pair. */
  lemma StoredRecordCounts(attendance: seq<AttendanceRecord>, a: AttendanceRecord)
    requires a in attendance
    ensures HasRecord(attendance, a.lectureId, a.studentId)
  {
    var j :| 0 <= j < |attendance| && attendance[j] == a;
    assert SamePair(attendance[j], a.lectureId, a.studentId);
  }

  lemma RecordedIsListed(db: DB, studentId: string, lectureId: string)
    requires HasRecord(db.attendance, lectureId, studentId)
    ensures ListsLecture(GetAttendanceByStudent(db, studentId), lectureId)
  {
    var rows := GetAttendanceByStudent(db, studentId);
    var j :| 0 <= j < |db.attendance| && SamePair(db.attendance[j], lectureId, studentId);
    var a := db.attendance[j];
    assert a in db.attendance;
    var row := AttendanceRow(a, LectureOf(db, a), None);
    assert row in rows;
    var k :| 0 <= k < |rows| && rows[k] == row;
    assert rows[k].record.lectureId == lectureId;
  }

  /** `handleScanResult(lectureId)` for student `userId` whose device has
      fingerprint `fingerprint` and registration flag `registered`.
      `lookup` is what `getLectureById(lectureId)` gives; `bindingId` and
      `attendanceId` are the fresh ids the two writes would draw. */
  function HandleScanResult(db: DB, userId: string, registered: bool, fingerprint: string,
                            lookup: Fallible<Option<Lecture>>, bindingId: string, attendanceId: string,
                            now: int): (r: Step)
    ensures !registered ==> r == Step(db, NotRegistered)
    ensures registered ==>
      && ExclusiveDevice(r.db.bindings, userId, fingerprint)
      && r.db.users == db.users && r.db.lectures == db.lectures && r.db.profiles == db.profiles
    ensures registered ==>
      r.db.bindings == EnsureExclusiveActiveDevice(db, userId, fingerprint, bindingId, now).bindings
    ensures r.result == LookupFailed <==> registered && lookup.Threw?
    ensures r.result == LectureNotFound <==> registered && lookup == Returned(None)
    ensures r.result == AlreadyAttended <==>
      registered && lookup.Returned? && lookup.value.Some?
      && HasRecord(db.attendance, lookup.value.value.id, userId)
    ensures !r.result.Recorded? ==> r.db.attendance == db.attendance
    ensures r.result.Recorded? ==>
      && registered && lookup.Returned? && lookup.value.Some?
      && !HasRecord(db.attendance, lookup.value.value.id, userId)
      && r.result.record == AttendanceRecord(attendanceId, lookup.value.value.id, userId, fingerprint, now)
      && r.db.attendance == [r.result.record] + db.attendance
  {
    if !registered then Step(db, NotRegistered)
    else
      var db1 := EnsureExclusiveActiveDevice(db, userId, fingerprint, bindingId, now);
      ExclusiveAfterEnsure(db, userId, fingerprint, bindingId, now);
      match lookup
      case Threw => Step(db1, LookupFailed)
      case Returned(None) => Step(db1, LectureNotFound)
      case Returned(Some(lecture)) =>
        ListingShowsRecord(db1, userId, lecture.id);
        if ListsLecture(GetAttendanceByStudent(db1, userId), lecture.id) then Step(db1, AlreadyAttended)
        else
          var w := InsertAttendance(db1, AttendanceInput(lecture.id, userId, fingerprint, None), attendanceId, now);
          Step(w.db, Recorded(w.rec))
  }

  /** A scan never creates a second record for a (lecture, student) pair. */
  lemma ScanKeepsOnePerPair(db: DB, userId: string, registered: bool, fingerprint: string,
                            lookup: Fallible<Option<Lecture>>, bindingId: string, attendanceId: string, now: int)
    requires OnePerPair(db.attendance)
    ensures OnePerPair(HandleScanResult(db, userId, registered, fingerprint, lookup, bindingId, attendanceId, now)
                       .db.attendance)
  {
    var r := HandleScanResult(db, userId, registered, fingerprint, lookup, bindingId, attendanceId, now);
    if r.result.Recorded? {
      var att := r.db.attendance;
      var rec := r.result.record;
      forall i, j | 0 <= i < j < |att|
        ensures !SamePair(att[j], att[i].lectureId, att[i].studentId)
      {
        assert att[j] == db.attendance[j - 1];
        if i > 0 {
          assert att[i] == db.attendance[i - 1];
        } else {
          assert att[i] == rec;
        }
      }
    }
  }

  /** Scanning the same lecture twice records once: the second scan finds
      the first one's record and writes no attendance. */
  lemma SecondScanAlreadyAttended(db: DB, userId: string, fingerprint: string, lecture: Lecture,
                                  b1: string, a1: string, now1: int, b2: string, a2: string, now2: int)
    ensures var first := HandleScanResult(db, userId, true, fingerprint, Returned(Some(lecture)), b1, a1, now1);
      var second := HandleScanResult(first.db, userId, true, fingerprint, Returned(Some(lecture)), b2, a2, now2);
      && (first.result.Recorded? || first.result == AlreadyAttended)
      && second.result == AlreadyAttended
      && second.db.attendance == first.db.attendance
  {
    var first := HandleScanResult(db, userId, true, fingerprint, Returned(Some(lecture)), b1, a1, now1);
    if first.result.Recorded? {
      assert first.db.attendance[0] == first.result.record;
      assert SamePair(first.db.attendance[0], lecture.id, userId);
    }
  }
}
