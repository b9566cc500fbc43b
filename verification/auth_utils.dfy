/** The role checks of `src/lib/authUtils.ts`. The session read and the
    role lookup (`dataClient.getSession`, `dataClient.getUserRoleAsync`)
    are parameters that may throw; roles are the strings the lookup
    returns. */
module AuthUtils {
  import opened Common

  /** The session's user as `getCurrentUser` reads it. */
  datatype SessionUser = SessionUser(id: string, email: Option<string>,
                                     fullName: Option<string>, universityId: Option<string>)

  datatype AuthUser = AuthUser(id: string, email: string, role: string,
                               fullName: Option<string>, universityId: Option<string>)

  /** `getUserRoleAsync(userId)`: a role or `null`, or a thrown error. */
  type RoleLookup = string -> Fallible<Option<string>>

  /** `x || fallback` on a `string | null`. */
  function OrDefault(x: Option<string>, fallback: string): (r: string)
    ensures x.Some? && x.value != "" ==> r == x.value
    ensures x.None? || x.value == "" ==> r == fallback
  {
    if x.Some? && x.value != "" then x.value else fallback
  }

  /** `getCurrentUser()`, given what `getSession()` yields (`None` for a
      session without user). */
  function GetCurrentUser(session: Fallible<Option<SessionUser>>, roleOf: RoleLookup): (r: Option<AuthUser>)
    ensures session.Threw? || session == Returned(None) ==> r.None?
    ensures session.Returned? && session.value.Some? ==>
      var u := session.value.value;
      && (r.None? <==> roleOf(u.id).Threw?)
      && (r.Some? ==>
            && r.value.id == u.id
            && r.value.email == OrDefault(u.email, "")
            && r.value.fullName == u.fullName && r.value.universityId == u.universityId
            && (roleOf(u.id) == Returned(None) ==> r.value.role == "student")
            && (roleOf(u.id).Returned? && roleOf(u.id).value.Some? && roleOf(u.id).value.value != "" ==>
                  r.value.role == roleOf(u.id).value.value))
    ensures r.Some? ==> r.value.role != ""
  {
    match session
    case Threw => None
    case Returned(None) => None
    case Returned(Some(u)) =>
      match roleOf(u.id)
      case Threw => None
      case Returned(role) =>
        Some(AuthUser(u.id, OrDefault(u.email, ""), OrDefault(role, "student"), u.fullName, u.universityId))
  }

  /** The outcome of `requireAuth`: the user, or the error it throws. */
  datatype Auth = Authorized(user: AuthUser) | Refused(message: string)

  /** The Arabic role names used in the refusal message. */
  function RoleName(role: string): string {
    if role == "admin" then "مدير جامعة"
    else if role == "professor" then "أستاذ"
    else if role == "student" then "طالب"
    else "undefined"
  }

  /** `requireAuth(requiredRole)`. */
  function RequireAuth(session: Fallible<Option<SessionUser>>, roleOf: RoleLookup,
                       requiredRole: Option<string>): (r: Auth)
    ensures GetCurrentUser(session, roleOf).None? ==> r == Refused("يجب تسجيل الدخول أولاً")
    ensures r.Authorized? ==> Some(r.user) == GetCurrentUser(session, roleOf)
    ensures r.Authorized? && requiredRole.Some? && requiredRole.value != "" ==> r.user.role == requiredRole.value
    ensures GetCurrentUser(session, roleOf).Some? ==>
      (r.Refused? <==>
         (requiredRole.Some? && requiredRole.value != ""
          && GetCurrentUser(session, roleOf).value.role != requiredRole.value))
  {
    match GetCurrentUser(session, roleOf)
    case None => Refused("يجب تسجيل الدخول أولاً")
    case Some(user) =>
      if requiredRole.Some? && requiredRole.value != "" && user.role != requiredRole.value then
        Refused("هذه الصفحة مخصصة لـ" + RoleName(requiredRole.value) + " فقط")
      else Authorized(user)
  }

  /** `isAdmin` / `isProfessor` / `isStudent`: the looked-up role is
      exactly `expected`; a thrown lookup answers false. */
  function HasRole(userId: string, roleOf: RoleLookup, expected: string): (r: bool)
    ensures roleOf(userId).Threw? ==> !r
    ensures r <==> roleOf(userId) == Returned(Some(expected))
  {
    match roleOf(userId)
    case Threw => false
    case Returned(role) => role == Some(expected)
  }

  function IsAdmin(userId: string, roleOf: RoleLookup): bool { HasRole(userId, roleOf, "admin") }
  function IsProfessor(userId: string, roleOf: RoleLookup): bool { HasRole(userId, roleOf, "professor") }
  function IsStudent(userId: string, roleOf: RoleLookup): bool { HasRole(userId, roleOf, "student") }

  /** At most one of the three checks holds for a user. */
  lemma RoleChecksExclusive(userId: string, roleOf: RoleLookup)
    ensures !(IsAdmin(userId, roleOf) && IsProfessor(userId, roleOf))
    ensures !(IsAdmin(userId, roleOf) && IsStudent(userId, roleOf))
    ensures !(IsProfessor(userId, roleOf) && IsStudent(userId, roleOf))
  {
  }

  /** The checks agree with the role `getCurrentUser` reports, except that
      a user without a stored role is a student to `getCurrentUser` and not
      to `isStudent`. */
  lemma RoleChecksMatchCurrentUser(u: SessionUser, roleOf: RoleLookup)
    requires roleOf(u.id).Returned?
    ensures var user := GetCurrentUser(Returned(Some(u)), roleOf).value;
      && (IsAdmin(u.id, roleOf) <==> user.role == "admin")
      && (IsProfessor(u.id, roleOf) <==> user.role == "professor")
      && (roleOf(u.id).value.Some? && roleOf(u.id).value.value != "" ==>
            (IsStudent(u.id, roleOf) <==> user.role == "student"))
      && (roleOf(u.id).value.None? ==> user.role == "student" && !IsStudent(u.id, roleOf))
  {
  }
}
