/** The in-browser store of `src/lib/localDB.ts` (`LocalDB`): users,
    device bindings, lectures, attendance records and profiles, each a
    sequence of records. Every operation takes the store as a value and
    returns the new store with its result; loading and saving to
    localStorage are not modelled. Fresh ids (`genId`) and the clock
    (`new Date()`) are parameters; instants are milliseconds, which order
    the same way as the ISO strings the code stores. */
module LocalDb {
  import opened Common
  import opened Seqs

  datatype AppRole = Student | Professor | Admin

  datatype User = User(id: string, email: string, password: string, fullName: string,
                       universityId: string, role: AppRole, createdAt: int)

  datatype Profile = Profile(id: string, fullName: string, universityId: string, createdAt: int)

  /** `is_active` and the optional columns may be `null`/absent: `None`. */
  datatype DeviceBinding = DeviceBinding(id: string, userId: string, fingerprint: string,
                                         deviceName: Option<string>, isActive: Option<bool>,
                                         createdAt: int, lastUsedAt: Option<int>)

  datatype Lecture = Lecture(id: string, professorId: string, title: string, courseCode: string,
                             location: Option<string>, startTime: int, endTime: int,
                             qrCodeData: string, isActive: Option<bool>, createdAt: int)

  datatype AttendanceRecord = AttendanceRecord(id: string, lectureId: string, studentId: string,
                                               fingerprint: string, scannedAt: int)

  datatype DB = DB(users: seq<User>, bindings: seq<DeviceBinding>, lectures: seq<Lecture>,
                   attendance: seq<AttendanceRecord>, profiles: seq<Profile>)

  /** A store after a write, with the record the write returns. */
  datatype Written<T> = Written(db: DB, rec: T)

  // ---------------------------------------------------------------------
  // users
  // ---------------------------------------------------------------------

  /** `signIn(email, password)`: the first user with these credentials;
      `None` is the thrown "wrong credentials" error. */
  function SignIn(db: DB, email: string, password: string): (r: Option<User>)
    ensures r.Some? ==> r.value in db.users && r.value.email == email && r.value.password == password
    ensures r.None? <==> forall k :: 0 <= k < |db.users| ==>
      !(db.users[k].email == email && db.users[k].password == password)
  {
    Find(db.users, (u: User) => u.email == email && u.password == password)
  }

  datatype SignUpInput = SignUpInput(email: string, password: string, fullName: string,
                                     universityId: string, role: AppRole)

  /** `signUp` either throws because the e-mail is taken or stores a user. */
  datatype SignUpResult = EmailTaken | SignedUp(db: DB, user: User)

  predicate EmailTakenIn(users: seq<User>, email: string) {
    exists k :: 0 <= k < |users| && users[k].email == email
  }

  /** `signUp(opts)` with `freshId` for `genId("user")` at clock `now`. */
  function SignUp(db: DB, input: SignUpInput, freshId: string, now: int): (r: SignUpResult)
    ensures r.EmailTaken? <==> EmailTakenIn(db.users, input.email)
    ensures r.SignedUp? ==>
      && r.user == User(freshId, input.email, input.password, input.fullName, input.universityId, input.role, now)
      && r.db.users == db.users + [r.user]
      && r.db.bindings == db.bindings && r.db.lectures == db.lectures && r.db.attendance == db.attendance
    ensures r.SignedUp? ==>
      r.db.profiles == db.profiles
        + (if exists k :: 0 <= k < |db.profiles| && db.profiles[k].id == freshId then []
           else [Profile(freshId, input.fullName, input.universityId, now)])
  {
    if exists k :: 0 <= k < |db.users| && db.users[k].email == input.email then EmailTaken
    else
      var user := User(freshId, input.email, input.password, input.fullName, input.universityId, input.role, now);
      var profiles :=
        if Find(db.profiles, (p: Profile) => p.id == freshId).Some? then db.profiles
        else db.profiles + [Profile(freshId, input.fullName, input.universityId, now)];
      SignedUp(db.(users := db.users + [user], profiles := profiles), user)
  }

  predicate EmailsUnique(users: seq<User>) {
    forall i, j :: 0 <= i < j < |users| ==> users[i].email != users[j].email
  }

  /** Because `signUp` refuses a taken e-mail, e-mails stay unique. */
  lemma SignUpKeepsEmailsUnique(db: DB, input: SignUpInput, freshId: string, now: int)
    requires EmailsUnique(db.users)
    ensures var r := SignUp(db, input, freshId, now);
      r.SignedUp? ==> EmailsUnique(r.db.users)
  {
  }

  /** A user that signed up can sign in with the same credentials, when
      e-mails were unique before. */
  lemma SignUpThenSignIn(db: DB, input: SignUpInput, freshId: string, now: int)
    requires EmailsUnique(db.users)
    requires SignUp(db, input, freshId, now).SignedUp?
    ensures var r := SignUp(db, input, freshId, now);
      SignIn(r.db, input.email, input.password) == Some(r.user)
  {
    var r := SignUp(db, input, freshId, now);
    var users := r.db.users;
    assert users[|db.users|] == r.user;
    assert forall k :: 0 <= k < |db.users| ==> users[k] == db.users[k];
  }

  /** `getUserRole(userId)`: the role of the first user with this id. */
  function GetUserRole(db: DB, userId: string): (r: Option<AppRole>)
    ensures r.None? <==> forall k :: 0 <= k < |db.users| ==> db.users[k].id != userId
    ensures r.Some? ==> exists k :: 0 <= k < |db.users| && db.users[k].id == userId && db.users[k].role == r.value
  {
    match Find(db.users, (u: User) => u.id == userId)
    case Some(u) => Some(u.role)
    case None => None
  }
  /** The role comes from the first user with the id. */
  lemma GetUserRoleFirst(db: DB, userId: string)
    ensures var r := GetUserRole(db, userId);
      r.Some? ==>
        exists k :: 0 <= k < |db.users| && db.users[k].id == userId && db.users[k].role == r.value
                    && forall j :: 0 <= j < k ==> db.users[j].id != userId
  {
    var k := FirstIndex(db.users, (u: User) => u.id == userId);
    if k >= 0 {
      assert db.users[k].id == userId;
    }
  }


  // ---------------------------------------------------------------------
  // device bindings
  // ---------------------------------------------------------------------

  predicate IsActive(d: DeviceBinding) { d.isActive == Some(true) }

  /** Some binding joins this user to this fingerprint. */
  predicate HasBinding(bindings: seq<DeviceBinding>, userId: string, fingerprint: string) {
    exists k :: 0 <= k < |bindings| && bindings[k].userId == userId && bindings[k].fingerprint == fingerprint
  }

  /** `getDeviceBinding(user_id, fingerprint)`. */
  function GetDeviceBinding(db: DB, userId: string, fingerprint: string): (r: Option<DeviceBinding>)
    ensures r.None? <==> !HasBinding(db.bindings, userId, fingerprint)
    ensures r.Some? ==> r.value in db.bindings && r.value.userId == userId && r.value.fingerprint == fingerprint
  {
    Find(db.bindings, (d: DeviceBinding) => d.userId == userId && d.fingerprint == fingerprint)
  }
  /** The binding found is the first one of that user and fingerprint. */
  lemma GetDeviceBindingFirst(db: DB, userId: string, fingerprint: string)
    ensures var r := GetDeviceBinding(db, userId, fingerprint);
      r.Some? ==>
        exists k :: 0 <= k < |db.bindings| && db.bindings[k] == r.value
                    && forall j :: 0 <= j < k ==> !(db.bindings[j].userId == userId && db.bindings[j].fingerprint == fingerprint)
  {
    var k := FirstIndex(db.bindings, (d: DeviceBinding) => d.userId == userId && d.fingerprint == fingerprint);
    if k >= 0 {
      assert db.bindings[k].userId == userId;
    }
  }


  /** What callers pass to `upsertDeviceBinding`. */
  datatype BindingInput = BindingInput(id: Option<string>, userId: string, fingerprint: string,
                                       deviceName: Option<string>, lastUsedAt: Option<int>)

  /** The final `map` of `upsertDeviceBinding`: the user's bindings to other
      fingerprints are switched off. */
  function DeactivateOthers(bindings: seq<DeviceBinding>, userId: string, fingerprint: string): (r: seq<DeviceBinding>)
    ensures |r| == |bindings|
    ensures forall k :: 0 <= k < |r| ==>
      if bindings[k].userId == userId && bindings[k].fingerprint != fingerprint
      then r[k] == bindings[k].(isActive := Some(false))
      else r[k] == bindings[k]
  {
    MapSeq(bindings, (d: DeviceBinding) =>
      if d.userId == userId && d.fingerprint != fingerprint then d.(isActive := Some(false)) else d)
  }

  /** Where `upsertDeviceBinding` finds an existing row: only by id, and
      never when no id is given. */
  function UpsertTarget(bindings: seq<DeviceBinding>, id: Option<string>): (i: int)
    ensures -1 <= i < |bindings|
    ensures id.None? ==> i == -1
    ensures i >= 0 ==> id.Some? && bindings[i].id == id.value
    ensures i == -1 && id.Some? ==> forall k :: 0 <= k < |bindings| ==> bindings[k].id != id.value
  {
    match id
    case None => -1
    case Some(v) => FirstIndex(bindings, (d: DeviceBinding) => d.id == v)
  }

  /** `upsertDeviceBinding(binding)` with `freshId` for `genId("dev")` at
      clock `now`. The returned record is the one before the final `map`. */
  function UpsertDeviceBinding(db: DB, input: BindingInput, freshId: string, now: int): (r: Written<DeviceBinding>)
    ensures r.db.users == db.users && r.db.lectures == db.lectures
    ensures r.db.attendance == db.attendance && r.db.profiles == db.profiles
    ensures var i := UpsertTarget(db.bindings, input.id);
      |r.db.bindings| == |db.bindings| + (if i < 0 then 1 else 0)
    ensures forall k :: 0 <= k < |r.db.bindings| ==>
      r.db.bindings[k].userId == input.userId && r.db.bindings[k].fingerprint != input.fingerprint
      ==> r.db.bindings[k].isActive == Some(false)
    ensures forall k :: (0 <= k < |db.bindings| && k != UpsertTarget(db.bindings, input.id)
                         && (db.bindings[k].userId != input.userId || db.bindings[k].fingerprint == input.fingerprint))
                        ==> r.db.bindings[k] == db.bindings[k]
    ensures UpsertTarget(db.bindings, input.id) < 0 ==>
      && r.rec == DeviceBinding(freshId, input.userId, input.fingerprint, input.deviceName, Some(true), now, input.lastUsedAt)
      && r.db.bindings[|db.bindings|] == r.rec
    ensures var i := UpsertTarget(db.bindings, input.id); i >= 0 ==>
      var found := db.bindings[i];
      && r.rec.id == found.id && r.rec.userId == found.userId && r.rec.fingerprint == found.fingerprint
      && r.rec.createdAt == found.createdAt
      && r.rec.deviceName == (if input.deviceName.Some? then input.deviceName else found.deviceName)
      && r.rec.lastUsedAt == (if input.lastUsedAt.Some? then input.lastUsedAt else found.lastUsedAt)
      && r.db.bindings[i] == (if found.userId == input.userId && found.fingerprint != input.fingerprint
                              then r.rec.(isActive := Some(false)) else r.rec)
    ensures IsActive(r.rec)
  {
    var i := UpsertTarget(db.bindings, input.id);
    if i < 0 then
      var rec := DeviceBinding(freshId, input.userId, input.fingerprint, input.deviceName, Some(true), now, input.lastUsedAt);
      Written(db.(bindings := DeactivateOthers(db.bindings + [rec], input.userId, input.fingerprint)), rec)
    else
      var found := db.bindings[i];
      var rec := found.(deviceName := if input.deviceName.Some? then input.deviceName else found.deviceName,
                        lastUsedAt := if input.lastUsedAt.Some? then input.lastUsedAt else found.lastUsedAt,
                      isActive := Some(true));
      Written(db.(bindings := DeactivateOthers(db.bindings[i := rec], input.userId, input.fingerprint)), rec)
  }

  /** Callers never pass an id, so two upserts for the same device leave two
      active rows for it: the upsert never finds the first one. */
  lemma UpsertWithoutIdDuplicates(db: DB, userId: string, fingerprint: string,
                                  name: Option<string>, id1: string, id2: string, now1: int, now2: int)
    ensures var input := BindingInput(None, userId, fingerprint, name, None);
      var first := UpsertDeviceBinding(db, input, id1, now1).db;
      var second := UpsertDeviceBinding(first, input, id2, now2).db;
      var n := |db.bindings|;
      && |second.bindings| == n + 2
      && second.bindings[n].id == id1 && second.bindings[n + 1].id == id2
      && second.bindings[n].userId == userId && second.bindings[n].fingerprint == fingerprint
      && second.bindings[n + 1].userId == userId && second.bindings[n + 1].fingerprint == fingerprint
      && IsActive(second.bindings[n]) && IsActive(second.bindings[n + 1])
  {
    var input := BindingInput(None, userId, fingerprint, name, None);
    var first := UpsertDeviceBinding(db, input, id1, now1).db;
    var n := |db.bindings|;
    assert first.bindings[n].id == id1;
    assert IsActive(first.bindings[n]);
  }

  /** One binding touched by `ensureExclusiveActiveDevice`'s `map`. */
  function Touch(d: DeviceBinding, userId: string, fingerprint: string, now: int): DeviceBinding {
    if d.userId != userId then d
    else if d.fingerprint == fingerprint then d.(isActive := Some(true), lastUsedAt := Some(now))
    else d.(isActive := Some(false))
  }

  /** `ensureExclusiveActiveDevice(user_id, fingerprint)` with `freshId` for
      `genId("dev")` at clock `now`. */
  function EnsureExclusiveActiveDevice(db: DB, userId: string, fingerprint: string, freshId: string, now: int): (r: DB)
    ensures r.users == db.users && r.lectures == db.lectures
    ensures r.attendance == db.attendance && r.profiles == db.profiles
    ensures |r.bindings| == |db.bindings| + (if HasBinding(db.bindings, userId, fingerprint) then 0 else 1)
    ensures forall k :: 0 <= k < |db.bindings| && db.bindings[k].userId != userId ==>
      r.bindings[k] == db.bindings[k]
    ensures forall k :: 0 <= k < |db.bindings| ==>
      r.bindings[k].id == db.bindings[k].id && r.bindings[k].userId == db.bindings[k].userId
      && r.bindings[k].fingerprint == db.bindings[k].fingerprint
    ensures forall k :: 0 <= k < |r.bindings| && r.bindings[k].userId == userId ==>
      r.bindings[k].isActive == Some(r.bindings[k].fingerprint == fingerprint)
    ensures HasBinding(r.bindings, userId, fingerprint)
    ensures forall k :: 0 <= k < |db.bindings| ==>
      r.bindings[k].deviceName == db.bindings[k].deviceName && r.bindings[k].createdAt == db.bindings[k].createdAt
    ensures forall k :: 0 <= k < |db.bindings| && db.bindings[k].userId == userId ==>
      r.bindings[k].lastUsedAt == if db.bindings[k].fingerprint == fingerprint then Some(now) else db.bindings[k].lastUsedAt
    ensures !HasBinding(db.bindings, userId, fingerprint) ==>
      r.bindings[|db.bindings|] == DeviceBinding(freshId, userId, fingerprint, None, Some(true), now, Some(now))
  {
    var touched := MapSeq(db.bindings, (d: DeviceBinding) => Touch(d, userId, fingerprint, now));
    if HasBinding(db.bindings, userId, fingerprint) then
      var k :| 0 <= k < |db.bindings| && db.bindings[k].userId == userId && db.bindings[k].fingerprint == fingerprint;
      assert touched[k].userId == userId && touched[k].fingerprint == fingerprint;
      db.(bindings := touched)
    else
      var added := DeviceBinding(freshId, userId, fingerprint, None, Some(true), now, Some(now));
      var r := touched + [added];
      assert r[|touched|] == added;
      db.(bindings := r)
  }

  /** After the call the user's only active fingerprint is this one. */
  lemma ExclusiveAfterEnsure(db: DB, userId: string, fingerprint: string, freshId: string, now: int)
    ensures var r := EnsureExclusiveActiveDevice(db, userId, fingerprint, freshId, now);
      && (forall k :: 0 <= k < |r.bindings| && r.bindings[k].userId == userId && IsActive(r.bindings[k])
            ==> r.bindings[k].fingerprint == fingerprint)
      && (exists k :: 0 <= k < |r.bindings| && r.bindings[k].userId == userId
            && r.bindings[k].fingerprint == fingerprint && IsActive(r.bindings[k]))
  {
    var r := EnsureExclusiveActiveDevice(db, userId, fingerprint, freshId, now);
    var k :| 0 <= k < |r.bindings| && r.bindings[k].userId == userId && r.bindings[k].fingerprint == fingerprint;
    assert IsActive(r.bindings[k]);
  }

  /** Calling it again at the same instant changes nothing: the binding now
      exists, so nothing is appended, and every row is already set. */
  lemma EnsureExclusiveIdempotent(db: DB, userId: string, fingerprint: string, id1: string, id2: string, now: int)
    ensures var once := EnsureExclusiveActiveDevice(db, userId, fingerprint, id1, now);
      EnsureExclusiveActiveDevice(once, userId, fingerprint, id2, now) == once
  {
    var once := EnsureExclusiveActiveDevice(db, userId, fingerprint, id1, now);
    var twice := EnsureExclusiveActiveDevice(once, userId, fingerprint, id2, now);
    assert |twice.bindings| == |once.bindings|;
    forall k | 0 <= k < |once.bindings|
      ensures twice.bindings[k] == once.bindings[k]
    {
      var d := once.bindings[k];
      if d.userId == userId && d.fingerprint == fingerprint {
        if k < |db.bindings| {
          assert d == Touch(db.bindings[k], userId, fingerprint, now);
        }
      }
    }
  }

  /** `_getAllBindings(user_id)`. */
  function AllBindings(db: DB, userId: string): (r: seq<DeviceBinding>)
    ensures forall d :: d in r <==> d in db.bindings && d.userId == userId
    ensures forall d :: multiset(r)[d] == if d.userId == userId then multiset(db.bindings)[d] else 0
  {
    FilterSeqCount(db.bindings, (d: DeviceBinding) => d.userId == userId);
    FilterSeq(db.bindings, (d: DeviceBinding) => d.userId == userId)
  }

  // ---------------------------------------------------------------------
  // lectures
  // ---------------------------------------------------------------------

  /** The fields given to `insertLecture`.  `isActive` is `None` when the
      key is absent, and `Some(v)` when it is given, with `v == None` for an
      explicit `null` or `undefined`. */
  datatype LectureInput = LectureInput(professorId: string, title: string, courseCode: string,
                                       location: Option<string>, startTime: int, endTime: int,
                                       qrCodeData: string, isActive: Option<Option<bool>>)

  /** `is_active ?? true`: a lecture counts as active unless it says false. */
  predicate LectureActive(l: Lecture) { l.isActive.GetOr(true) }

  /** `insertLecture(input)` with `freshId` for `genId("lec")` at clock
      `now`: the new row goes first.  The default `is_active ?? true` comes
      before `...input`, so a given `is_active`, even `null` or `undefined`,
      is the one stored. */
  function InsertLecture(db: DB, input: LectureInput, freshId: string, now: int): (r: Written<Lecture>)
    ensures r.db == db.(lectures := [r.rec] + db.lectures)
    ensures r.rec.id == freshId && r.rec.createdAt == now
    ensures r.rec.professorId == input.professorId && r.rec.qrCodeData == input.qrCodeData
    ensures r.rec.startTime == input.startTime && r.rec.endTime == input.endTime
    ensures r.rec.title == input.title && r.rec.courseCode == input.courseCode && r.rec.location == input.location
    ensures input.isActive.None? ==> r.rec.isActive == Some(true)
    ensures input.isActive.Some? ==> r.rec.isActive == input.isActive.value
    ensures LectureActive(r.rec) <==> input.isActive != Some(Some(false))
  {
    var rec := Lecture(freshId, input.professorId, input.title, input.courseCode, input.location,
                       input.startTime, input.endTime, input.qrCodeData, input.isActive.GetOr(Some(true)), now);
    Written(db.(lectures := [rec] + db.lectures), rec)
  }

  /** `findLectureByQr(qr)`: the first active lecture with this code. */
  function FindLectureByQr(db: DB, qr: string): (r: Option<Lecture>)
    ensures r.Some? ==> r.value in db.lectures && r.value.qrCodeData == qr && LectureActive(r.value)
    ensures r.None? <==> forall k :: 0 <= k < |db.lectures| ==>
      !(db.lectures[k].qrCodeData == qr && LectureActive(db.lectures[k]))
  {
    Find(db.lectures, (l: Lecture) => l.qrCodeData == qr && LectureActive(l))
  }
  /** The lecture found is the first active one with that code. */
  lemma FindLectureByQrFirst(db: DB, qr: string)
    ensures var r := FindLectureByQr(db, qr);
      r.Some? ==>
        exists k :: 0 <= k < |db.lectures| && db.lectures[k] == r.value
                    && forall j :: 0 <= j < k ==> !(db.lectures[j].qrCodeData == qr && LectureActive(db.lectures[j]))
  {
    var k := FirstIndex(db.lectures, (l: Lecture) => l.qrCodeData == qr && LectureActive(l));
    if k >= 0 {
      assert db.lectures[k].qrCodeData == qr;
    }
  }


  /** The first lecture with this id: what `getLectureById` is asked for.
      `LocalDB` itself has no such method. */
  function LectureById(db: DB, id: string): (r: Option<Lecture>)
    ensures r.Some? ==> r.value in db.lectures && r.value.id == id
    ensures r.None? <==> forall k :: 0 <= k < |db.lectures| ==> db.lectures[k].id != id
  {
    Find(db.lectures, (l: Lecture) => l.id == id)
  }
  /** The lecture found is the first one with that id. */
  lemma LectureByIdFirst(db: DB, id: string)
    ensures var r := LectureById(db, id);
      r.Some? ==>
        exists k :: 0 <= k < |db.lectures| && db.lectures[k] == r.value
                    && forall j :: 0 <= j < k ==> db.lectures[j].id != id
  {
    var k := FirstIndex(db.lectures, (l: Lecture) => l.id == id);
    if k >= 0 {
      assert db.lectures[k].id == id;
    }
  }


  /** A lecture inserted active is the one its code finds next, since new
      lectures go first. */
  lemma InsertThenFindLecture(db: DB, input: LectureInput, freshId: string, now: int)
    requires input.isActive != Some(Some(false))
    ensures var w := InsertLecture(db, input, freshId, now);
      FindLectureByQr(w.db, input.qrCodeData) == Some(w.rec)
  {
    var w := InsertLecture(db, input, freshId, now);
    assert w.db.lectures[0] == w.rec;
  }

  /** `getLecturesByProfessor(user_id)`: that professor's lectures, latest
      start first. */
  function GetLecturesByProfessor(db: DB, professorId: string): (r: seq<Lecture>)
    ensures forall l :: l in r <==> l in db.lectures && l.professorId == professorId
    ensures multiset(r) == multiset(FilterSeq(db.lectures, (l: Lecture) => l.professorId == professorId))
    ensures SortedDesc(r, (l: Lecture) => l.startTime)
  {
    SortDesc(FilterSeq(db.lectures, (l: Lecture) => l.professorId == professorId), (l: Lecture) => l.startTime)
  }

  // ---------------------------------------------------------------------
  // attendance
  // ---------------------------------------------------------------------

  datatype AttendanceInput = AttendanceInput(lectureId: string, studentId: string,
                                             fingerprint: string, scannedAt: Option<int>)

  predicate SamePair(a: AttendanceRecord, lectureId: string, studentId: string) {
    a.lectureId == lectureId && a.studentId == studentId
  }

  predicate HasRecord(attendance: seq<AttendanceRecord>, lectureId: string, studentId: string) {
    exists k :: 0 <= k < |attendance| && SamePair(attendance[k], lectureId, studentId)
  }

  /** At most one record per (lecture, student). */
  predicate OnePerPair(attendance: seq<AttendanceRecord>) {
    forall i, j :: 0 <= i < j < |attendance| ==>
      !SamePair(attendance[j], attendance[i].lectureId, attendance[i].studentId)
  }

  /** `insertAttendance(input)` with `freshId` for `genId("att")` at clock
      `now`: returns the existing record for the pair untouched, or puts a
      new one first. */
  function InsertAttendance(db: DB, input: AttendanceInput, freshId: string, now: int): (r: Written<AttendanceRecord>)
    ensures SamePair(r.rec, input.lectureId, input.studentId)
    ensures HasRecord(db.attendance, input.lectureId, input.studentId) ==>
      r.db == db && r.rec in db.attendance
    ensures !HasRecord(db.attendance, input.lectureId, input.studentId) ==>
      && r.rec == AttendanceRecord(freshId, input.lectureId, input.studentId, input.fingerprint, input.scannedAt.GetOr(now))
      && r.db == db.(attendance := [r.rec] + db.attendance)
  {
    match Find(db.attendance, (a: AttendanceRecord) => SamePair(a, input.lectureId, input.studentId))
    case Some(existing) => Written(db, existing)
    case None =>
      var rec := AttendanceRecord(freshId, input.lectureId, input.studentId, input.fingerprint, input.scannedAt.GetOr(now));
      Written(db.(attendance := [rec] + db.attendance), rec)
  }

  /** Inserting keeps "at most one record per pair". */
  lemma InsertAttendanceKeepsOnePerPair(db: DB, input: AttendanceInput, freshId: string, now: int)
    requires OnePerPair(db.attendance)
    ensures OnePerPair(InsertAttendance(db, input, freshId, now).db.attendance)
  {
    var r := InsertAttendance(db, input, freshId, now);
    if !HasRecord(db.attendance, input.lectureId, input.studentId) {
      var att := r.db.attendance;
      forall i, j | 0 <= i < j < |att|
        ensures !SamePair(att[j], att[i].lectureId, att[i].studentId)
      {
        assert att[j] == db.attendance[j - 1];
        if i > 0 {
          assert att[i] == db.attendance[i - 1];
        }
      }
    }
  }

  /** A second insert for the same pair returns the first one's record and
      writes nothing. */
  lemma InsertAttendanceIdempotent(db: DB, input: AttendanceInput, again: AttendanceInput,
                                   id1: string, id2: string, now1: int, now2: int)
    requires OnePerPair(db.attendance)
    requires again.lectureId == input.lectureId && again.studentId == input.studentId
    ensures var first := InsertAttendance(db, input, id1, now1);
      InsertAttendance(first.db, again, id2, now2) == first
  {
    var first := InsertAttendance(db, input, id1, now1);
    assert first.rec in first.db.attendance;
    var k :| 0 <= k < |first.db.attendance| && first.db.attendance[k] == first.rec;
    assert HasRecord(first.db.attendance, input.lectureId, input.studentId);
    InsertAttendanceKeepsOnePerPair(db, input, id1, now1);
    var second := InsertAttendance(first.db, again, id2, now2);
    var j := FirstIndex(first.db.attendance, (a: AttendanceRecord) => SamePair(a, input.lectureId, input.studentId));
    assert j == k;
  }

  /** An attendance row joined with its lecture and, for the lecture
      listing, the student's profile (the student listing has none). */
  datatype AttendanceRow = AttendanceRow(record: AttendanceRecord, lecture: Option<Lecture>, profile: Option<Profile>)

  function LectureOf(db: DB, a: AttendanceRecord): Option<Lecture> {
    Find(db.lectures, (l: Lecture) => l.id == a.lectureId)
  }

  function ProfileOf(db: DB, a: AttendanceRecord): Option<Profile> {
    Find(db.profiles, (p: Profile) => p.id == a.studentId)
  }

  function ScannedAt(row: AttendanceRow): int { row.record.scannedAt }

  function RecordOf(row: AttendanceRow): AttendanceRecord { row.record }

  /** `getAttendanceByStudent(student_id)`: the student's records with their
      lectures, latest scan first. */
  function GetAttendanceByStudent(db: DB, studentId: string): (r: seq<AttendanceRow>)
    ensures SortedDesc(r, ScannedAt)
    ensures forall row :: row in r <==>
      row.record in db.attendance && row.record.studentId == studentId
      && row.lecture == LectureOf(db, row.record) && row.profile.None?
    ensures forall row :: row in r && row.lecture.Some? ==>
      row.lecture.value in db.lectures && row.lecture.value.id == row.record.lectureId
    ensures |r| == |FilterSeq(db.attendance, (a: AttendanceRecord) => a.studentId == studentId)|
  {
    var own := (a: AttendanceRecord) => a.studentId == studentId;
    var join := (a: AttendanceRecord) => AttendanceRow(a, LectureOf(db, a), None);
    var rows := MapSeq(FilterSeq(db.attendance, own), join);
    forall row: AttendanceRow
      ensures row in rows <==> join(row.record) == row && own(row.record) && row.record in db.attendance
    {
      FilterMapCount(db.attendance, own, join, RecordOf, row);
    }
    SortDesc(rows, ScannedAt)
  }

  /** The student listing holds each of the student's records exactly as
      often as the store does, and nothing else. */
  lemma AttendanceByStudentCounts(db: DB, studentId: string)
    ensures var r := GetAttendanceByStudent(db, studentId);
      forall row :: multiset(r)[row] ==
        if row.record.studentId == studentId && row.lecture == LectureOf(db, row.record) && row.profile.None?
        then multiset(db.attendance)[row.record] else 0
  {
    var own := (a: AttendanceRecord) => a.studentId == studentId;
    var join := (a: AttendanceRecord) => AttendanceRow(a, LectureOf(db, a), None);
    var rows := MapSeq(FilterSeq(db.attendance, own), join);
    assert GetAttendanceByStudent(db, studentId) == SortDesc(rows, ScannedAt);
    forall row: AttendanceRow
      ensures multiset(rows)[row] ==
        if join(row.record) == row && own(row.record) then multiset(db.attendance)[row.record] else 0
    {
      FilterMapCount(db.attendance, own, join, RecordOf, row);
    }
  }

  /** `getAttendanceByLectureIds(lectureIds)`: the records of those lectures
      with their lectures and student profiles, latest scan first. */
  function GetAttendanceByLectureIds(db: DB, lectureIds: seq<string>): (r: seq<AttendanceRow>)
    ensures SortedDesc(r, ScannedAt)
    ensures forall row :: row in r <==>
      row.record in db.attendance && row.record.lectureId in lectureIds
      && row.lecture == LectureOf(db, row.record)
      && row.profile == ProfileOf(db, row.record)
    ensures |r| == |FilterSeq(db.attendance, (a: AttendanceRecord) => a.lectureId in lectureIds)|
  {
    var chosen := (a: AttendanceRecord) => a.lectureId in lectureIds;
    var join := (a: AttendanceRecord) => AttendanceRow(a, LectureOf(db, a), ProfileOf(db, a));
    var rows := MapSeq(FilterSeq(db.attendance, chosen), join);
    forall row: AttendanceRow
      ensures row in rows <==> join(row.record) == row && chosen(row.record) && row.record in db.attendance
    {
      FilterMapCount(db.attendance, chosen, join, RecordOf, row);
    }
    SortDesc(rows, ScannedAt)
  }

  /** The lecture listing holds each record of those lectures exactly as
      often as the store does, and nothing else. */
  lemma AttendanceByLectureIdsCounts(db: DB, lectureIds: seq<string>)
    ensures var r := GetAttendanceByLectureIds(db, lectureIds);
      forall row :: multiset(r)[row] ==
        if row.record.lectureId in lectureIds && row.lecture == LectureOf(db, row.record)
           && row.profile == ProfileOf(db, row.record)
        then multiset(db.attendance)[row.record] else 0
  {
    var chosen := (a: AttendanceRecord) => a.lectureId in lectureIds;
    var join := (a: AttendanceRecord) => AttendanceRow(a, LectureOf(db, a), ProfileOf(db, a));
    var rows := MapSeq(FilterSeq(db.attendance, chosen), join);
    assert GetAttendanceByLectureIds(db, lectureIds) == SortDesc(rows, ScannedAt);
    forall row: AttendanceRow
      ensures multiset(rows)[row] ==
        if join(row.record) == row && chosen(row.record) then multiset(db.attendance)[row.record] else 0
    {
      FilterMapCount(db.attendance, chosen, join, RecordOf, row);
    }
  }
}
