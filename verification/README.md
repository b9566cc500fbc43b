# Attendance credentials of hdoor, modelled in Dafny

hdoor is a university attendance system. A professor's screen shows a QR
code that changes every few seconds. A student scans it with a registered
device, and the scan becomes one attendance record. This project models the
logic behind that flow as pure Dafny functions and proves properties of it.
The modelled parts are:

- **The signed credential** (`CryptoUtils`). A payload has the form
  `lectureId|timestamp|nonce:signature`. The signature is HMAC-SHA256
  (section 2 of RFC 2104) over the part before `:`. A credential is
  accepted for 15 seconds.
- **The windowed codes.** The `qr.ts` signer is `Qr`. The rotating plain
  code of `QRCodeDisplay` is `QrDisplay`. `validateQRCode` is in `Security`.
- **The scan.**
  - `ScanText` cleans the scanned text: trimming, bidi-mark removal,
    percent-decoding and URL extraction.
  - `Scanner` is the scanner component's accept/reject decision.
  - `StudentScan` is the student dashboard's flow over the store. It makes
    the device exclusive, looks the lecture up and records attendance
    once.
- **The store** (`LocalDb`). These are the users, device bindings,
  lectures and attendance ledger of `localDB.ts`. Each write is a function
  from a store to a store and a result.
- **The rules.**
  - Two rate limiters: `RateLimitTable` and `RateLimitHook`.
  - The validators in `Security`.
  - The role/permission table (`Permissions`) and the role checks
    (`AuthUtils`).
  - The CSV writer (`Reports`).
  - The notification list (`Notifications`).

Some things are parameters of the model:

- The MAC is a parameter `mac(key, message)`.
- The clock is an integer number of milliseconds.
- Random bytes and freshly generated ids are inputs.
- `decodeURIComponent` and `new URL` are partial functions passed in, with
  `None` standing for a thrown error.
- The results of the store lookups made through the data client are
  passed in. They may be a thrown error.

Strings are sequences of Unicode characters. JavaScript measures a
string's `length` in UTF-16 code units, and a character outside the Basic
Multilingual Plane takes two of them. The model counts that way wherever
the code compares or cuts a length (`Common.Utf16Length`, `Common.Take`).
`split`, `join`, `trim` and `parseInt` follow JavaScript and are defined
in `Common` and `Decimal`.

Where the code and its documented design disagree, the model follows the
code:

- The credential's freshness is an age window of 0 to 15000 ms, not a
  tolerance of window indices.
- Signatures are compared as plain strings.
- The scanner verifies the credential before the dashboard checks the
  device.

## Model

| member | source | states |
|---|---|---|
| CryptoUtils.GenerateSecureRandom | src/lib/cryptoUtils.ts:5-14 | the result has exactly the requested length and every character is from the 62-character alphanumeric alphabet |
| CryptoUtils.EveryAlphanumericStringReachable | src/lib/cryptoUtils.ts:5-14 | every alphanumeric string of a given length is produced by some random bytes, so the generator covers the whole alphabet |
| CryptoUtils.CreatedPayloadShape | src/lib/cryptoUtils.ts:36-42 | `createSecureQRPayload`: the credential splits on ':' into the signed part `lectureId\|timestamp\|nonce` and the MAC of that part, with an 8-character alphanumeric nonce |
| CryptoUtils.CreatedPayloadFields | src/lib/cryptoUtils.ts:36-42 | the verifier reads back the lecture id and the issue time from a created credential |
| CryptoUtils.VerifySecureQRPayload | src/lib/cryptoUtils.ts:45-64 | the first failing check names the reason: 'Invalid format' exactly when the payload or signature piece is missing or empty; 'Invalid signature' exactly when they are present but the signature is not the MAC of the payload; 'Malformed payload' exactly when it is signed but the lecture id is empty or the timestamp does not parse; 'Expired' exactly when all that holds but the age is outside [0, 15000]; valid exactly when every check passes, and then the lecture id is the first '\|'-piece; every failure has an empty lecture id |
| CryptoUtils.VerifyCreatedPayload | src/lib/cryptoUtils.ts:36-64 | round trip: a credential created for a non-empty lecture id without '\|' or ':' verifies under the same key with that lecture id whenever 0 <= now - timestamp <= 15000 |
| CryptoUtils.ExpiredExactlyOutsideWindow | src/lib/cryptoUtils.ts:60-62 | a correctly signed credential is rejected as expired exactly when its age is negative or above 15000 ms; ages 0 and 15000 pass |
| CryptoUtils.FormatCheckedBeforeMac | src/lib/cryptoUtils.ts:47-48 | an empty payload or signature part gives 'Invalid format' whatever the MAC is, so no MAC is consulted |
| CryptoUtils.WrongSignatureWhateverTime | src/lib/cryptoUtils.ts:51-52 | a wrong signature is reported as 'Invalid signature' at every clock value, since it is checked before parsing and freshness |
| CryptoUtils.TextAfterSecondColonIgnored | src/lib/cryptoUtils.ts:47 | text after a second ':' does not change the verdict, because the destructuring keeps only the first two pieces |
| CryptoUtils.ColonInLectureIdBreaksRoundTrip | src/lib/cryptoUtils.ts:39-47 | a lecture id with exactly one ':' makes its own credential fail verification |
| CryptoUtils.ColonInLectureIdChangesResult | src/lib/cryptoUtils.ts:39-55 | a lecture id containing any ':' never comes back from verification of its own credential |
| CryptoUtils.BarInLectureIdChangesResult | src/lib/cryptoUtils.ts:39-55 | a lecture id containing '\|' does not come back whole from verification |
| CryptoUtils.GetLectureSecretKey | src/lib/cryptoUtils.ts:71-74 | the key is `LECTURE_SECRET_` + professor id + `_` + lecture id: its length, its prefix and its suffix |
| CryptoUtils.SecretKeySeparatesLectures | src/lib/cryptoUtils.ts:71-74 | for one professor, distinct lectures get distinct keys |
| CryptoUtils.SecretKeySeparatesProfessors | src/lib/cryptoUtils.ts:71-74 | for one lecture, distinct professors get distinct keys |
| Qr.GetQrSecret | src/lib/qr.ts:16-20 | the secret is absent exactly when the configured value is absent or empty, and is otherwise that value |
| Qr.GetWindowCounter | src/lib/qr.ts:22-24 | the window w satisfies w * interval <= now < (w + 1) * interval |
| Qr.WindowCounterMonotone | src/lib/qr.ts:22-24 | the window index never decreases as the clock advances |
| Qr.WindowCounterUnique | src/lib/qr.ts:22-24 | the window index is the only integer bracketing the clock that way |
| Qr.WindowMessageDecodes | src/lib/qr.ts:32-34 | the signed message `base\|window` splits back into the base and the decimal window |
| Qr.WindowMessageInjective | src/lib/qr.ts:32-34 | `signPayload` signs distinct (base, window) pairs, for a '\|'-free base, as distinct messages |
| Qr.VerifyAcceptsOwnSignature | src/lib/qr.ts:36-39 | `verifyPayload` accepts the signature `signPayload` made for the same base, window and secret |
| Qr.VerifyRejectsOtherWindows | src/lib/qr.ts:32-39 | when no other message shares the MAC of the signed message `base\|window`, a signature made for one window verifies for exactly that window |
| QrDisplay.DisplayPayload | src/components/QRCodeDisplay.tsx:20-21 | for a '\|'-free base the text splits into exactly two pieces, the base and a decimal that parses to floor(now / interval) |
| QrDisplay.PayloadChangesExactlyAcrossWindows | src/components/QRCodeDisplay.tsx:20-21 | two instants show the same text exactly when they fall in the same window |
| QrDisplay.PayloadConstantWithinWindow | src/components/QRCodeDisplay.tsx:20-21 | every instant of a window shows the same text |
| QrDisplay.DisplayedPayloadValidates | src/components/QRCodeDisplay.tsx:20-21 | with interval 5000 and a '\|'-free lecture id as base, the text passes validateQRCode's prefix and window checks at the same instant, and passes as a whole exactly when the lecture is open at the second clock read |
| QrDisplay.DisplayedPayloadWindowTolerance | src/lib/security.ts:210-216 | a text shown at one instant passes the corrected check at another exactly when their 5000 ms windows differ by at most one and the lecture is open at the second clock read |
| QrDisplay.CountdownStart | src/components/QRCodeDisplay.tsx:14 | the start t is at least 1 and satisfies (t - 1) * 1000 < interval <= t * 1000, i.e. t = ceil(interval / 1000) |
| QrDisplay.CountdownTick | src/components/QRCodeDisplay.tsx:47 | from a value in [1, start] a tick stays in [1, start], and it decreases the value unless the value is 1 or less |
| QrDisplay.CountdownCycles | src/components/QRCodeDisplay.tsx:14-47 | from any value t in [1, start], k < t ticks give t - k, and t ticks give the start again |
| ScanText.StripBidi | src/components/dashboard/StudentDashboard.tsx:19 | the result holds no bidi mark (U+200E, U+200F, U+202A-U+202E), keeps every other character, and is unchanged on mark-free text |
| ScanText.DecodeOrKeep | src/components/dashboard/StudentDashboard.tsx:21 | the decoded text when decoding succeeds, else the input unchanged |
| ScanText.SearchParam | src/components/dashboard/StudentDashboard.tsx:26 | absent exactly when no parameter has the name; otherwise the value of the first one |
| ScanText.Segments | src/components/dashboard/StudentDashboard.tsx:28 | the non-empty '/'-pieces of the path, each as often as the path has it, and nothing else |
| ScanText.LastSegmentIsLastPiece | src/components/dashboard/StudentDashboard.tsx:28-29 | the last segment is the path's last non-empty '/'-piece, so the order of the pieces is kept |
| ScanText.FromUrl | src/components/dashboard/StudentDashboard.tsx:26-29 | nothing exactly when neither `qr` nor `code` is truthy and the path has no segment |
| ScanText.ExtractQr | src/components/dashboard/StudentDashboard.tsx:16-33 | the prepared text, or what the URL branch extracts when the text is an http(s) URL that parses and yields something |
| ScanText.FailuresFallBack | src/components/dashboard/StudentDashboard.tsx:21-30 | totality: a throwing decoder keeps the mark-stripped text, and a URL that does not parse keeps the prepared text |
| ScanText.DecoderSeesNoBidiMarks | src/components/dashboard/StudentDashboard.tsx:19-21 | the result depends on the decoder only through text without bidi marks, so marks are removed before decoding |
| ScanText.NonUrlUnchanged | src/components/dashboard/StudentDashboard.tsx:17-32 | non-URL text comes back trimmed, mark-stripped and decoded, whatever the URL parser does |
| ScanText.QrParamWins | src/components/dashboard/StudentDashboard.tsx:26-27 | a URL with a non-empty `qr` parameter yields that value trimmed |
| ScanText.CodeParamWhenQrEmpty | src/components/dashboard/StudentDashboard.tsx:26-27 | when `qr` is absent or empty, a non-empty `code` is returned trimmed |
| ScanText.LastPathSegment | src/components/dashboard/StudentDashboard.tsx:28-29 | with neither parameter truthy, the trimmed last non-empty path segment is returned, or the prepared text when the path has none |
| ScanText.QuietTextUnchanged | src/components/ProfessionalQRScanner.tsx:69-84 | non-URL text of characters the cleaning steps do not touch passes the scanner's normalisation unchanged |
| ScanText.ScannerNormaliseEqualsExtractQr | src/components/ProfessionalQRScanner.tsx:69-84 | the scanner's own normalisation gives the same text as extractQr on every input |
| Scanner.ScanKey | src/components/ProfessionalQRScanner.tsx:108-109 | the key starts with `LECTURE_SECRET_` + professor id + `_` and ends with the text's first '\|'-piece |
| Scanner.HandleScanResult | src/components/ProfessionalQRScanner.tsx:66-137 | without a professor id nothing is verified; text without '\|' is unsupported; otherwise it accepts exactly when verification is valid, with its non-empty lecture id, and a rejection carries the verification's reason |
| Scanner.DisplayedNormalises | src/components/ProfessionalQRScanner.tsx:69-84 | a credential made for a plain lecture id survives normalisation unchanged |
| Scanner.DisplayedLectureId | src/components/ProfessionalQRScanner.tsx:99-108 | the scanner reads the lecture id back off a displayed credential |
| Scanner.ScannerAcceptsDisplayed | src/components/ProfessionalQRScanner.tsx:89-127 | given the id that signed it, the scanner accepts a fresh displayed credential with its lecture id |
| Scanner.WrongKeyRejected | src/lib/cryptoUtils.ts:51-52 | a text signed under one key fails under a key whose MAC differs on that text |
| Scanner.StudentKeyRejectsDisplayed | src/components/dashboard/StudentDashboard.tsx:206 | with the student's own id as professorId, a credential signed with the professor's key is rejected as 'Invalid signature' whenever the two keys sign its signed part differently |
| Scanner.ScanWithLectureProfessor | src/components/ProfessionalQRScanner.tsx:89-127 | the scan with the professor id taken from the stored lecture: an unknown lecture has no professor to verify with, and an acceptance is a valid verification under the key of that lecture's professor |
| Scanner.LectureProfessorAcceptsDisplayed | src/components/ProfessionalQRDisplay.tsx:41-49 | end to end: a fresh credential displayed for a stored lecture by its professor is accepted with that lecture's id |
| LocalDb.SignIn | src/lib/localDB.ts:157-163 | a result is a stored user with these credentials, and there is none exactly when no user matches |
| LocalDb.SignUp | src/lib/localDB.ts:164-184 | throws exactly when the e-mail is taken; otherwise appends exactly one user with the given fields and the fresh id |
| LocalDb.SignUpKeepsEmailsUnique | src/lib/localDB.ts:164-184 | signing up keeps e-mails unique |
| LocalDb.SignUpThenSignIn | src/lib/localDB.ts:157-184 | a user that signed up can sign in with the same credentials |
| LocalDb.GetUserRole | src/lib/localDB.ts:189-192 | the role of a user with the id; none exactly when no user has it |
| LocalDb.GetUserRoleFirst | src/lib/localDB.ts:189-192 | the role is that of the first user with the id: no earlier user has it |
| LocalDb.GetDeviceBinding | src/lib/localDB.ts:195-198 | a stored binding of that user and fingerprint; none exactly when there is no such binding |
| LocalDb.GetDeviceBindingFirst | src/lib/localDB.ts:195-198 | the binding is the first of that user and fingerprint: no earlier binding matches |
| LocalDb.DeactivateOthers | src/lib/localDB.ts:218-223 | every same-user binding with another fingerprint becomes inactive; all other bindings are unchanged |
| LocalDb.UpsertTarget | src/lib/localDB.ts:201 | an existing row is found only by a given id |
| LocalDb.UpsertDeviceBinding | src/lib/localDB.ts:199-226 | without a matching id a new active record is appended; with one, that row keeps its id, owner, fingerprint and creation time, takes the given device name and last use or keeps its own, and is returned active; then the user's other fingerprints are inactive, and other users' rows and the user's rows for this fingerprint are untouched |
| LocalDb.UpsertWithoutIdDuplicates | src/lib/localDB.ts:199-226 | two id-less upserts for the same device leave two rows for it |
| LocalDb.EnsureExclusiveActiveDevice | src/lib/localDB.ts:228-251 | the user's bindings with this fingerprint are active with last use `now`, and the user's others are inactive with their last use kept; every existing row keeps its id, owner, fingerprint, device name and creation time; other users' bindings are unchanged; exactly one binding is appended iff none for (user, fingerprint) existed, with the fresh id, no name, active, created and last used `now` |
| LocalDb.ExclusiveAfterEnsure | src/lib/localDB.ts:228-251 | afterwards the user's only active fingerprint is this one, and one active binding for it exists |
| LocalDb.EnsureExclusiveIdempotent | src/lib/localDB.ts:228-251 | repeating the call at the same instant changes nothing |
| LocalDb.AllBindings | src/lib/localDB.ts:254-257 | exactly the user's bindings, each as often as it is stored |
| LocalDb.InsertLecture | src/lib/localDB.ts:260-271 | prepends one lecture with the fresh id, the given title, course code, location, times and code; an absent `is_active` is stored as true and a given one, even null or undefined, as given, so the lecture is active unless given as false |
| LocalDb.FindLectureByQr | src/lib/localDB.ts:276-279 | a stored lecture with that code that is not marked inactive; none exactly when there is no such lecture |
| LocalDb.FindLectureByQrFirst | src/lib/localDB.ts:276-279 | the lecture is the first that qualifies: no earlier lecture has that code and is active |
| LocalDb.InsertThenFindLecture | src/lib/localDB.ts:260-279 | an active lecture just inserted is the one its code finds |
| LocalDb.LectureById | src/components/dashboard/StudentDashboard.tsx:124 | a stored lecture with that id; none exactly when there is none |
| LocalDb.LectureByIdFirst | src/components/dashboard/StudentDashboard.tsx:124 | the lecture is the first with that id: no earlier lecture has it |
| LocalDb.GetLecturesByProfessor | src/lib/localDB.ts:272-275 | exactly that professor's lectures, latest start first |
| LocalDb.InsertAttendance | src/lib/localDB.ts:282-297 | an existing (lecture, student) record is returned with the ledger unchanged; otherwise one record is prepended with the given or current scan time |
| LocalDb.InsertAttendanceKeepsOnePerPair | src/lib/localDB.ts:282-297 | inserting keeps at most one record per (lecture, student) |
| LocalDb.InsertAttendanceIdempotent | src/lib/localDB.ts:284-286 | a second insert for the same pair returns the first record and changes nothing |
| LocalDb.GetAttendanceByStudent | src/lib/localDB.ts:298-307 | exactly the student's records, each joined with its lecture, latest scan first |
| LocalDb.AttendanceByStudentCounts | src/lib/localDB.ts:298-307 | the student listing holds each of the student's records, joined with its lecture, exactly as often as the store does, and nothing else |
| LocalDb.GetAttendanceByLectureIds | src/lib/localDB.ts:308-318 | exactly the records of those lectures, joined with lecture and student profile, latest scan first |
| LocalDb.AttendanceByLectureIdsCounts | src/lib/localDB.ts:308-318 | the lecture listing holds each record of those lectures, joined with lecture and profile, exactly as often as the store does, and nothing else |
| StudentScan.ListsLecture | src/components/dashboard/StudentDashboard.tsx:137 | found exactly when some listed row is for the lecture |
| StudentScan.ListingShowsRecord | src/components/dashboard/StudentDashboard.tsx:136-138 | the student's listing shows a lecture exactly when a record for the pair exists |
| StudentScan.HandleScanResult | src/components/dashboard/StudentDashboard.tsx:104-168 | an unregistered device writes nothing; otherwise the bindings are exactly what ensureExclusiveActiveDevice leaves; lookup failure, unknown lecture and existing record each hold exactly when reported, and write no attendance; a recording prepends exactly the new record |
| StudentScan.ScanKeepsOnePerPair | src/components/dashboard/StudentDashboard.tsx:135-153 | a scan never creates a second record for a (lecture, student) pair |
| StudentScan.SecondScanAlreadyAttended | src/components/dashboard/StudentDashboard.tsx:135-145 | scanning the same lecture twice records once; the second scan reports it as already recorded |
| RateLimitTable.CheckRateLimit | src/lib/security.ts:244-259 | an unseen or expired identifier is allowed and restarts at count 1 until now + windowMs; in a window a call is refused iff count >= maxCalls, a refusal changes nothing and an allowed call increments the count; other identifiers are untouched |
| RateLimitTable.CallsInOpenWindow | src/lib/security.ts:253-258 | while a window stays open, calls are allowed until the count reaches maxCalls |
| RateLimitTable.AtMostMaxCallsPerWindow | src/lib/security.ts:244-259 | for maxCalls >= 1, of n calls in one fresh window exactly min(n, maxCalls) are allowed, so never more than maxCalls |
| RateLimitTable.RunLeavesOthers | src/lib/security.ts:244-259 | calls for one identifier leave every other identifier's record unchanged |
| RateLimitTable.CleanupRateLimits | src/lib/security.ts:262-269 | removes exactly the records with now > resetTime |
| RateLimitTable.CleanupKeepsDecisions | src/lib/security.ts:248-269 | cleaning up never changes a later decision |
| RateLimitHook.CheckRateLimit | src/hooks/useRateLimit.ts:18-40 | past the window it resets and allows; otherwise it denies iff attempts >= maxAttempts, with remaining time windowMs - elapsed, and changes no state |
| RateLimitHook.RecordAttempt | src/hooks/useRateLimit.ts:42-69 | past the window it restarts at one attempt and allows; otherwise it adds exactly one attempt, moves lastAttempt to now, blocks iff attempts >= maxAttempts with remaining time windowMs, and allows iff not blocked |
| RateLimitHook.ResetRateLimit | src/hooks/useRateLimit.ts:71-78 | zero attempts, lastAttempt 0, not blocked and no remaining time, whatever came before |
| RateLimitHook.ResetThenCheckAllows | src/hooks/useRateLimit.ts:18-78 | for maxAttempts >= 1, a check after a reset is allowed |
| RateLimitHook.SlidingWindowAccumulates | src/hooks/useRateLimit.ts:43-66 | attempts each within windowMs of the previous keep accumulating, because every attempt moves the window |
| RateLimitHook.FirstAttemptAfterQuietPeriod | src/hooks/useRateLimit.ts:22-55 | more than windowMs after the last attempt, an attempt starts over at one attempt and a check clears the state |
| Security.AnyRangeMatches | src/lib/security.ts:113 | true exactly when some range matches |
| Security.ValidateIPAddressAsWritten | src/lib/security.ts:107-123 | an empty allow-list allows everything; otherwise some entry matches as the code matches it |
| Security.CidrMatchIsPrefixBeforeLastDot | src/lib/security.ts:114-117 | an entry with '/' matches by prefix of the base cut before its last '.', whatever the mask |
| Security.ExactEntryIsEquality | src/lib/security.ts:118-120 | an entry without '/' matches only the identical address |
| Security.CidrPrefixAdmitsNeighbour | src/lib/security.ts:116-117 | `192.168.1.0/24` admits `192.168.10.5` |
| Security.ValidateIPAddress | src/lib/security.ts:107-123 | the corrected check: an empty allow-list allows everything; otherwise some entry matches with the base's final '.' kept |
| Security.QuadMatchesFirstThreeOctets | src/lib/security.ts:114-117 | under the correction a dotted address matches a dotted '/mask' entry exactly when their first three octets agree |
| Security.SanitizeInput | src/lib/security.ts:142-148 | the trimmed input's characters other than `<`, `>`, `'` and `"`, in their order, cut to the longest prefix of at most 1000 UTF-16 code units; none of those four, and nothing that was not in the input |
| Security.SanitizeKeepsCleanInput | src/lib/security.ts:142-148 | clean input of at most 1000 code units comes back unchanged |
| Security.SanitizeCutsWideText | src/lib/security.ts:147 | text of characters outside the Basic Multilingual Plane is cut to its first 500 characters, since each takes two code units |
| Security.SanitizeNotIdempotent | src/lib/security.ts:143-147 | trimming happens before the deletions, so sanitising twice can differ from sanitising once |
| Security.ValidateQRCodeAsWritten | src/lib/security.ts:201-239 | rejects text without the `lectureId\|` prefix, a numeric window off by more than 1 from floor(now / 5000) at the first clock read, and a lecture that is closed at the second clock read, taken after the lookup; lets a non-numeric window through |
| Security.NonNumericWindowAccepted | src/lib/security.ts:210-216 | `lectureId\|later` passes the code as written for an open lecture at any clock value, and the corrected check rejects it |
| Security.ValidateQRCode | src/lib/security.ts:201-239 | the corrected check accepts only text with the prefix, a window that parses and is within 1 of the window at the first clock read, and a lecture open at the second clock read; it accepts nothing the code rejects |
| Security.ValidateQRCodeAgreesOnNumericWindows | src/lib/security.ts:210-216 | the two checks agree whenever the window parses |
| Security.ValidateEmailMatchesPattern | src/lib/security.ts:330-333 | `validateEmail` accepts exactly the addresses `^[^\s@]+@[^\s@]+\.[^\s@]+$` matches |
| Security.RulesListed | src/lib/security.ts:341-359 | the rule table lists the five rules once each, in the order the code checks them |
| Security.FailedRules | src/lib/security.ts:341-359 | exactly the listed rules that fail, in the order they are checked |
| Security.ValidatePassword | src/lib/security.ts:335-365 | valid iff there are no errors iff the length in UTF-16 code units is >= 8 and it has an A-Z, an a-z, a 0-9 and one of `!@#$%^&*`; the errors are exactly the failed rules, in rule order |
| Security.WidePasswordAccepted | src/lib/security.ts:341 | "Aa1!" followed by two characters outside the Basic Multilingual Plane is eight code units long and passes every rule |
| Permissions.AllPermissionsListed | src/lib/permissions.ts:2-20 | every permission value appears once in the union's list |
| Permissions.RolePermissions | src/lib/permissions.ts:85 | a role outside the table gets the empty list |
| Permissions.AdminHoldsEverything | src/lib/permissions.ts:28-77 | admin holds every permission, and the student's and professor's lists are subsets of it |
| Permissions.NewPermissionManager | src/lib/permissions.ts:83-86 | the manager keeps the role and holds exactly its listed permissions |
| Permissions.HasAnyPermission | src/lib/permissions.ts:92-94 | true exactly when some listed permission is held |
| Permissions.HasAllPermissions | src/lib/permissions.ts:96-98 | true exactly when every listed permission is held |
| Permissions.AnyAllOnLists | src/lib/permissions.ts:92-98 | any-of-nothing is false and all-of-nothing is true; on a non-empty list, holding all implies holding any |
| Permissions.CanCreateLectures | src/lib/permissions.ts:100-102 | holds lecture.create |
| Permissions.CanManageUsers | src/lib/permissions.ts:104-106 | holds one of user.create, user.update or user.delete |
| Permissions.CanViewAnalytics | src/lib/permissions.ts:108-110 | holds analytics.read |
| Permissions.CanExportData | src/lib/permissions.ts:112-114 | holds attendance.export or analytics.export |
| Permissions.CanManageSystem | src/lib/permissions.ts:116-118 | holds system.admin |
| Permissions.GetPermissions | src/lib/permissions.ts:124-126 | exactly the held permissions, each once |
| Permissions.UnknownRoleRefused | src/lib/permissions.ts:85 | a role outside the table fails every has*/can* check |
| Permissions.UsePermissions | src/lib/permissions.ts:130-136 | throws exactly when no role is given, and otherwise builds that role's manager |
| Permissions.RequirePermission | src/lib/permissions.ts:139-153 | a missing role gives 401, a role lacking the permission gives 403, otherwise the request goes on |
| Permissions.CanUserAccessLecture | src/lib/permissions.ts:193-212 | a professor only for their own lecture; student and admin always; any other role never |
| Permissions.CanUserViewAttendance | src/lib/permissions.ts:214-224 | a student only their own; any other role exactly when it holds attendance.read_all |
| Permissions.CanUserManageUsers | src/lib/permissions.ts:226-229 | true exactly for admin |
| Permissions.CanUserExportData | src/lib/permissions.ts:231-234 | true exactly for professor and admin |
| Permissions.CanUserViewAnalytics | src/lib/permissions.ts:236-239 | true exactly for professor and admin |
| Permissions.CanUserManageBackups | src/lib/permissions.ts:241-244 | true exactly for admin |
| Permissions.CanUserManageSystem | src/lib/permissions.ts:246-249 | true exactly for admin |
| Permissions.HelpersMatchManager | src/lib/permissions.ts:226-249 | the manage-users, export, analytics and system helpers agree with the manager built for that role |
| AuthUtils.GetCurrentUser | src/lib/authUtils.ts:11-32 | none when the session read throws, has no user, or the role lookup throws; otherwise the session user with e-mail defaulting to '' and role defaulting to 'student' |
| AuthUtils.RequireAuth | src/lib/authUtils.ts:34-51 | refuses without a user ('يجب تسجيل الدخول أولاً'); with a user, refuses exactly when a required role is given and differs; an authorised user has the required role |
| AuthUtils.HasRole | src/lib/authUtils.ts:53-81 | isAdmin/isProfessor/isStudent: false when the lookup throws, otherwise true exactly when the role equals the expected one |
| AuthUtils.RoleChecksExclusive | src/lib/authUtils.ts:53-81 | at most one of the three role checks holds for a user |
| AuthUtils.RoleChecksMatchCurrentUser | src/lib/authUtils.ts:19-81 | the checks agree with the role getCurrentUser reports, except that a user with no stored role is a student to getCurrentUser and not to isStudent |
| Reports.CellText | src/lib/reports.ts:62-64 | falsy values become the empty text, strings themselves, non-zero numbers their decimal form, true the text 'true' |
| Reports.QuoteField | src/lib/reports.ts:64-65 | the field starts and ends with a double quote |
| Reports.ParseQuotedEscape | src/lib/reports.ts:64-65 | reading an escaped, closed field gives back the original text and what follows it |
| Reports.RecordLineRoundTrip | src/lib/reports.ts:60-67 | every record line reads back as the row's cell texts in header order: headers.length fields, falsy values as empty fields |
| Reports.CsvLines | src/lib/reports.ts:57-71 | with no line break in headers or cells, the file's lines are the unquoted header line and then exactly one record line per data row, in order |
| Reports.CsvFieldValue | src/lib/reports.ts:60-67 | each field of each record line reads back as that row's value for that header, and as empty for a falsy value |
| Notifications.AddNotification | src/components/Notifications.tsx:34-51 | prepends one unread entry with the clock's decimal as id, the given fields, autoClose defaulting to true and duration to 5000; the old list follows unchanged |
| Notifications.AutoCloseDelay | src/components/Notifications.tsx:46-50 | an entry has a removal timer exactly when it auto-closes, and the timer's delay is its duration |
| Notifications.RemoveNotification | src/components/Notifications.tsx:53-55 | no survivor has the id, survivors come from the list, and every entry with another id survives |
| Notifications.RemoveConcat | src/components/Notifications.tsx:53-55 | removal splits over concatenation, so survivors keep their order |
| Notifications.RemoveIdempotent | src/components/Notifications.tsx:53-55 | removing twice is removing once |
| Notifications.AddThenRemove | src/components/Notifications.tsx:34-55 | removing a just-added entry with a fresh id gives back the previous list |
| Notifications.SameMillisecondRemovesBoth | src/components/Notifications.tsx:37-55 | two entries added in the same millisecond share an id, and the first one's auto-close removes both |
| Notifications.MarkAsRead | src/components/Notifications.tsx:57-61 | the same entries in the same order; those with the id become read and nothing else changes |
| Notifications.MarkAsReadIdempotent | src/components/Notifications.tsx:57-61 | marking twice is marking once, and only the read flag ever changes |
| Notifications.ClearAll | src/components/Notifications.tsx:63-65 | the empty list |
| Notifications.UnreadCount | src/components/Notifications.tsx:67 | at most the list length, and zero exactly when every entry is read |
| Notifications.UnreadCountIsFilterLength | src/components/Notifications.tsx:67 | the count equals the length of `notifications.filter(n => !n.read)` |
| Notifications.AddIsVisibleAndUnread | src/components/Notifications.tsx:34-89 | a new entry is shown first and raises the unread count by one |
| Notifications.MarkAsReadCount | src/components/Notifications.tsx:57-67 | marking an id lowers the unread count by exactly the unread entries with that id |
| Notifications.RemoveCount | src/components/Notifications.tsx:53-67 | removing an id lowers the unread count by exactly the unread entries with that id |
| Notifications.Visible | src/components/Notifications.tsx:89 | the first min(5, length) entries of the list |
| Notifications.Badge | src/components/Notifications.tsx:183-186 | nothing exactly at 0, '9+' exactly above 9, and otherwise the count in decimal, which parses back to the count |
| Notifications.ClearAllSilencesBell | src/components/Notifications.tsx:63-67 | after clearing, the bell shows nothing and the container is empty |
| Decimal.DecimalRoundTrip | src/lib/cryptoUtils.ts:39-56 | `parseInt(String(t), 10)` gives back t for every integer t |
| Decimal.AutoRoundTrip | src/lib/security.ts:211 | `parseInt(String(w))` without a radix gives back w for every integer w |
| Decimal.IntToStringInjective | src/lib/cryptoUtils.ts:39 | distinct integers render as distinct decimal texts |
| Common.SplitJoin | src/lib/reports.ts:59-68 | splitting a join of separator-free pieces gives the pieces back |
| Common.JoinSplit | src/lib/cryptoUtils.ts:47-55 | joining the pieces of a split gives the text back |
| Common.SplitCountsSeparator | src/components/ProfessionalQRScanner.tsx:99-100 | a text has at least two '\|'-pieces exactly when it contains '\|' |
| Common.Take | src/lib/security.ts:147 | `substring(0, n)` returns a prefix of the text |
| Common.TakeFits | src/lib/security.ts:147 | that prefix fits in n UTF-16 code units, the next character would not fit, and the whole text comes back exactly when it fits |
| Common.TakeWideText | src/lib/security.ts:147 | on characters outside the Basic Multilingual Plane, `substring(0, 2h)` keeps h of them |
| Common.Trim | src/components/dashboard/StudentDashboard.tsx:17 | `trim()`: the text without leading and trailing white space |
| Common.TrimKeepsMiddle | src/components/dashboard/StudentDashboard.tsx:17 | `trim()` keeps one contiguous piece of the text and drops only white space before and after it |
| Common.FilterTwice | src/lib/security.ts:144-145 | the two `replace` calls delete exactly what one deletion of both character classes deletes |

## Left out

- CryptoUtils.VerifySecureQRPayload: the "Verification error" result of the `catch` (cryptoUtils.ts:65-67) is not modelled. It is reached only when `importKey` or `sign` rejects, and the MAC parameter is a total function.
- LocalDb: instants are integer milliseconds, while `localDB.ts` stores ISO-8601 strings and sorts them with `localeCompare` (lines 274, 306 and 317). The model orders by the integers, which agrees with the strings' order for the fixed-width UTC form `toISOString` writes.
- Decimal.DecimalRoundTrip: integers are unbounded, while JavaScript prints a number of magnitude 1e21 or more in exponent form and loses precision above 2^53. The values the model renders are millisecond clocks and window counts near 10^12, far below both.
- The HMAC computation and the key import of Web Crypto (`hmacSha256`, `hmacHex`, `importKey`) are a MAC parameter. Round-trip lemmas that need to know the digest is 64 lower-case hex digits assume that as a hypothesis.
- `Date.now()`, `crypto.getRandomValues` and `genId` are parameters. So are `Math.random` and the random QR ids of components outside the model.
- localStorage persistence (`loadDB`, `saveDB`, `seedDB`, `getSession`, `setSession`) is not modelled: the store is passed as a value.
- `src/lib/dataClient.ts` is not part of this model. It dispatches between the local store and network calls, and it calls `getLectureById`, which `localDB.ts` does not define. The student flow takes the lookup's result as a parameter that may be a thrown error. `LocalDb.LectureById` gives the value a lookup by id would return.
- `decodeURIComponent` and `new URL` are partial functions passed in. Their internals are not modelled.
- Toasts, `setShowScanner`, the camera scanner lifecycle, React effects, intervals and async races are left out. The model is sequential.
- The scanner's outer `catch` is not modelled. It covers "Processing error" from a throwing verifier, and the model's verifier is total.
- StudentScan.HandleScanResult: the device name from the user agent is not modelled, and neither is the professor id written with the record.
- Reports.CellText: numbers are integers. Fractions, NaN and objects (`[object Object]`) are not modelled, and neither are dates. Integers are unbounded, while JavaScript switches to exponent form at 1e21; the cells hold counts and ids far below that.
- The rest of `reports.ts` is left out: the Supabase queries, `downloadFile`, the random totals and floating-point rates of `generateLectureReport`, and `generateSummaryStats`.
- The `security.ts` members that do network, console or browser I/O, randomness or floating point are left out: `validateDeviceBinding`, `detectSuspiciousActivity`, `logSecurityEvent`, `checkLoginAttempts`, `generateSecureToken`, `hashData`, `encryptData`, `decryptData`, `generateDeviceFingerprint`, `checkSessionTimeout` and `securityMiddleware`.
- Security.ValidateQRCodeAsWritten: the lecture row read from the database is a parameter (`None` for a missing row or a failed query). Its start and end are integers, not parsed dates.
- Common.Take: when `substring(0, n)` cuts between the two halves of a surrogate pair, JavaScript keeps the lone first half. A Dafny `char` cannot hold a lone surrogate, so the model stops before that character, one code unit short.
- Security.ValidateEmail: white space in the pattern is JavaScript's `\s`, modelled with the same white-space set as `trim`.
- `PermissionGate` and `withPermission` are React rendering wrappers around `hasPermission`. `PermissionManager.getRole` returns the stored role, which `NewPermissionManager` keeps.
- AuthUtils.RequireAuth: the role-name message for a required role outside the three known roles reads "undefined", as a JavaScript lookup would.
- Notifications: the timestamp `Date` object is the clock value. The auto-close timer is modelled as the removal it performs, not as a delay. Rendering, icons and the `useNotifications` context check are left out.
- `ProfessionalQRDisplay`'s countdown and rendering are left out. Its key derivation and payload creation are what `Scanner.Displayed` states.
- Pages, landing sections, animations, statistics views and the remaining UI components are rendering only.

## Findings

| source | as written | input that shows it | evidently intended | confidence | as-written member | corrected member |
|---|---|---|---|---|---|---|
| src/lib/security.ts:210-216 | `Math.abs(currentWindow - parseInt(parts[1])) > 1` is false when the window is not a number, so the payload is not rejected | `lectureId\|later` for an open lecture, at any time | reject a window that does not parse | not executed | Security.NonNumericWindowAccepted | Security.ValidateQRCode |
| src/lib/security.ts:116-117 | the CIDR prefix is the base cut before its last '.', without the '.', so it matches neighbouring octets | `192.168.10.5` against `192.168.1.0/24` | keep the final '.' so the first three octets must agree | not executed | Security.CidrPrefixAdmitsNeighbour | Security.QuadMatchesFirstThreeOctets |
| src/components/dashboard/StudentDashboard.tsx:206 | the student dashboard passes the student's own id as the scanner's `professorId`, so the key is derived from the student's id, while the display signs with the professor's key (src/components/ProfessionalQRDisplay.tsx:41) | any fresh credential displayed by a professor whose id differs from the student's | verify with the key of the professor of the scanned lecture | not executed | Scanner.StudentKeyRejectsDisplayed | Scanner.LectureProfessorAcceptsDisplayed |
