/** The static access-control rules of `src/lib/permissions.ts`: the
    permission names, the role table `ROLES`, `PermissionManager`'s checks,
    the `requirePermission` middleware's decision and the `canUser*`
    helpers. Roles are strings, as in the source, so a role the table does
    not know is representable. */
module Permissions {
  import opened Common

  datatype Permission =
    | LectureCreate | LectureRead | LectureUpdate | LectureDelete
    | AttendanceCreate | AttendanceReadOwn | AttendanceReadAll | AttendanceExport
    | UserCreate | UserRead | UserUpdate | UserDelete
    | AnalyticsRead | AnalyticsExport
    | BackupCreate | BackupRead
    | SystemAdmin
    | NotificationsManage
  {
    /** The permission's name in the source. */
    function Name(): string {
      match this
      case LectureCreate => "lecture.create"
      case LectureRead => "lecture.read"
      case LectureUpdate => "lecture.update"
      case LectureDelete => "lecture.delete"
      case AttendanceCreate => "attendance.create"
      case AttendanceReadOwn => "attendance.read_own"
      case AttendanceReadAll => "attendance.read_all"
      case AttendanceExport => "attendance.export"
      case UserCreate => "user.create"
      case UserRead => "user.read"
      case UserUpdate => "user.update"
      case UserDelete => "user.delete"
      case AnalyticsRead => "analytics.read"
      case AnalyticsExport => "analytics.export"
      case BackupCreate => "backup.create"
      case BackupRead => "backup.read"
      case SystemAdmin => "system.admin"
      case NotificationsManage => "notifications.manage"
    }
  }

  /** The `Permission` union in declaration order. */
  const AllPermissions: seq<Permission> := [
    LectureCreate, LectureRead, LectureUpdate, LectureDelete,
    AttendanceCreate, AttendanceReadOwn, AttendanceReadAll, AttendanceExport,
    UserCreate, UserRead, UserUpdate, UserDelete,
    AnalyticsRead, AnalyticsExport, BackupCreate, BackupRead, SystemAdmin, NotificationsManage]

  const StudentPermissions: seq<Permission> := [LectureRead, AttendanceCreate, AttendanceReadOwn]

  const ProfessorPermissions: seq<Permission> := [
    LectureCreate, LectureRead, LectureUpdate, LectureDelete,
    AttendanceReadAll, AttendanceExport, AnalyticsRead, NotificationsManage]

  const AdminPermissions: seq<Permission> := [
    LectureCreate, LectureRead, LectureUpdate, LectureDelete,
    AttendanceCreate, AttendanceReadOwn, AttendanceReadAll, AttendanceExport,
    UserCreate, UserRead, UserUpdate, UserDelete,
    AnalyticsRead, AnalyticsExport, BackupCreate, BackupRead, SystemAdmin, NotificationsManage]

  predicate KnownRole(role: string) { role == "student" || role == "professor" || role == "admin" }

  /** `ROLES[role]?.permissions || []`. */
  function RolePermissions(role: string): (ps: seq<Permission>)
    ensures !KnownRole(role) ==> ps == []
  {
    if role == "student" then StudentPermissions
    else if role == "professor" then ProfessorPermissions
    else if role == "admin" then AdminPermissions
    else []
  }

  /** A `PermissionManager`: the role and the set built from its list. */
  datatype PermissionManager = PermissionManager(role: string, permissions: set<Permission>)

  /** `new PermissionManager(role)`. */
  function NewPermissionManager(role: string): (pm: PermissionManager)
    ensures pm.role == role
    ensures forall p :: p in pm.permissions <==> p in RolePermissions(role)
    ensures !KnownRole(role) ==> pm.permissions == {}
  {
    PermissionManager(role, set p | p in RolePermissions(role))
  }

  /** `hasPermission(p)`. */
  predicate HasPermission(pm: PermissionManager, p: Permission) { p in pm.permissions }

  /** `hasAnyPermission(ps)`: `ps.some(...)`. */
  function HasAnyPermission(pm: PermissionManager, ps: seq<Permission>): (r: bool)
    ensures r <==> exists k :: 0 <= k < |ps| && ps[k] in pm.permissions
    decreases |ps|
  {
    if |ps| == 0 then false
    else
      var rest := HasAnyPermission(pm, ps[1..]);
      assert forall k :: 1 <= k < |ps| ==> ps[k] == ps[1..][k - 1];
      ps[0] in pm.permissions || rest
  }

  /** `hasAllPermissions(ps)`: `ps.every(...)`. */
  function HasAllPermissions(pm: PermissionManager, ps: seq<Permission>): (r: bool)
    ensures r <==> forall k :: 0 <= k < |ps| ==> ps[k] in pm.permissions
    decreases |ps|
  {
    if |ps| == 0 then true
    else
      var rest := HasAllPermissions(pm, ps[1..]);
      assert forall k :: 1 <= k < |ps| ==> ps[k] == ps[1..][k - 1];
      ps[0] in pm.permissions && rest
  }

  /** `some` of nothing is false and `every` of nothing is true; on a
      non-empty list, having all implies having any. */
  lemma AnyAllOnLists(pm: PermissionManager, ps: seq<Permission>)
    ensures !HasAnyPermission(pm, [])
    ensures HasAllPermissions(pm, [])
    ensures |ps| > 0 && HasAllPermissions(pm, ps) ==> HasAnyPermission(pm, ps)
  {
    if |ps| > 0 && HasAllPermissions(pm, ps) {
      assert ps[0] in pm.permissions;
    }
  }

  // ---------------------------------------------------------------------
  // the manager's named checks
  // ---------------------------------------------------------------------

  const ManageUsersPermissions: seq<Permission> := [UserCreate, UserUpdate, UserDelete]
  const ExportPermissions: seq<Permission> := [AttendanceExport, AnalyticsExport]
  const BackupPermissions: seq<Permission> := [BackupCreate, BackupRead]

  /** `canCreateLectures()`. */
  function CanCreateLectures(pm: PermissionManager): (r: bool)
    ensures r <==> LectureCreate in pm.permissions
  { HasPermission(pm, LectureCreate) }

  /** `canManageUsers()`. */
  function CanManageUsers(pm: PermissionManager): (r: bool)
    ensures r <==> UserCreate in pm.permissions || UserUpdate in pm.permissions || UserDelete in pm.permissions
  { HasAnyPermission(pm, ManageUsersPermissions) }

  /** `canViewAnalytics()`. */
  function CanViewAnalytics(pm: PermissionManager): (r: bool)
    ensures r <==> AnalyticsRead in pm.permissions
  { HasPermission(pm, AnalyticsRead) }

  /** `canExportData()`. */
  function CanExportData(pm: PermissionManager): (r: bool)
    ensures r <==> AttendanceExport in pm.permissions || AnalyticsExport in pm.permissions
  { HasAnyPermission(pm, ExportPermissions) }

  /** `canManageSystem()`. */
  function CanManageSystem(pm: PermissionManager): (r: bool)
    ensures r <==> SystemAdmin in pm.permissions
  { HasPermission(pm, SystemAdmin) }

  /** `getPermissions()`: the set in insertion order, which for the role
      lists (all free of repeats) is the list itself. */
  function GetPermissions(role: string): (ps: seq<Permission>)
    ensures forall p :: p in ps <==> HasPermission(NewPermissionManager(role), p)
    ensures forall i, j :: 0 <= i < j < |ps| ==> ps[i] != ps[j]
  {
    RolePermissions(role)
  }

  // ---------------------------------------------------------------------
  // the role table
  // ---------------------------------------------------------------------

  /** Every permission value is listed once in the union. */
  lemma AllPermissionsListed(p: Permission)
    ensures p in AllPermissions
  {
    match p
    case LectureCreate => assert AllPermissions[0] == p;
    case LectureRead => assert AllPermissions[1] == p;
    case LectureUpdate => assert AllPermissions[2] == p;
    case LectureDelete => assert AllPermissions[3] == p;
    case AttendanceCreate => assert AllPermissions[4] == p;
    case AttendanceReadOwn => assert AllPermissions[5] == p;
    case AttendanceReadAll => assert AllPermissions[6] == p;
    case AttendanceExport => assert AllPermissions[7] == p;
    case UserCreate => assert AllPermissions[8] == p;
    case UserRead => assert AllPermissions[9] == p;
    case UserUpdate => assert AllPermissions[10] == p;
    case UserDelete => assert AllPermissions[11] == p;
    case AnalyticsRead => assert AllPermissions[12] == p;
    case AnalyticsExport => assert AllPermissions[13] == p;
    case BackupCreate => assert AllPermissions[14] == p;
    case BackupRead => assert AllPermissions[15] == p;
    case SystemAdmin => assert AllPermissions[16] == p;
    case NotificationsManage => assert AllPermissions[17] == p;
  }

  /** The admin role holds every permission, and the student's and the
      professor's lists are subsets of the admin's. */
  lemma AdminHoldsEverything(p: Permission)
    ensures HasPermission(NewPermissionManager("admin"), p)
    ensures HasPermission(NewPermissionManager("student"), p) ==> HasPermission(NewPermissionManager("admin"), p)
    ensures HasPermission(NewPermissionManager("professor"), p) ==> HasPermission(NewPermissionManager("admin"), p)
  {
    AllPermissionsListed(p);
    assert AdminPermissions == AllPermissions;
  }

  /** A role outside the table is refused everything. */
  lemma UnknownRoleRefused(role: string, ps: seq<Permission>, lectureProfessorId: string, userId: string,
                           targetUserId: string)
    requires !KnownRole(role)
    ensures var pm := NewPermissionManager(role);
      && (forall p :: !HasPermission(pm, p))
      && !HasAnyPermission(pm, ps)
      && (HasAllPermissions(pm, ps) <==> ps == [])
      && !CanUserAccessLecture(role, lectureProfessorId, userId)
      && !CanUserViewAttendance(role, targetUserId, userId)
      && !CanUserManageUsers(role) && !CanUserExportData(role) && !CanUserViewAnalytics(role)
      && !CanUserManageBackups(role) && !CanUserManageSystem(role)
  {
    var pm := NewPermissionManager(role);
    if ps != [] {
      assert !(ps[0] in pm.permissions);
    }
  }

  // ---------------------------------------------------------------------
  // requirePermission
  // ---------------------------------------------------------------------

  /** What the middleware does with a request. */
  datatype Response = Respond(status: int, error: string) | CallNext

  /** `requirePermission(permission)(req, res, next)`, given `req.user?.role`. */
  function RequirePermission(permission: Permission, userRole: Option<string>): (r: Response)
    ensures userRole.None? || userRole.value == "" ==> r == Respond(401, "Unauthorized")
    ensures userRole.Some? && userRole.value != "" ==>
      (r == CallNext <==> permission in RolePermissions(userRole.value))
    ensures userRole.Some? && userRole.value != "" && r != CallNext ==> r == Respond(403, "Forbidden")
  {
    if userRole.None? || userRole.value == "" then Respond(401, "Unauthorized")
    else if !HasPermission(NewPermissionManager(userRole.value), permission) then Respond(403, "Forbidden")
    else CallNext
  }

  /** `usePermissions(role)`: throws without a role. */
  function UsePermissions(role: Option<string>): (r: Fallible<PermissionManager>)
    ensures r.Threw? <==> role.None? || role.value == ""
    ensures r.Returned? ==> r.value == NewPermissionManager(role.value)
  {
    if role.None? || role.value == "" then Threw else Returned(NewPermissionManager(role.value))
  }

  // ---------------------------------------------------------------------
  // canUser* helpers
  // ---------------------------------------------------------------------

  /** `canUserAccessLecture(userRole, lectureProfessorId, userId)`. */
  function CanUserAccessLecture(userRole: string, lectureProfessorId: string, userId: string): (r: bool)
    ensures userRole == "professor" ==> (r <==> lectureProfessorId == userId)
    ensures userRole == "student" || userRole == "admin" ==> r
    ensures !KnownRole(userRole) ==> !r
  {
    var pm := NewPermissionManager(userRole);
    if userRole == "student" then HasPermission(pm, LectureRead)
    else if userRole == "professor" then lectureProfessorId == userId
    else if userRole == "admin" then HasPermission(pm, LectureRead)
    else false
  }

  /** `canUserViewAttendance(userRole, targetUserId, currentUserId)`. */
  function CanUserViewAttendance(userRole: string, targetUserId: string, currentUserId: string): (r: bool)
    ensures userRole == "student" ==> (r <==> targetUserId == currentUserId)
    ensures userRole != "student" ==> (r <==> AttendanceReadAll in RolePermissions(userRole))
    ensures userRole == "professor" || userRole == "admin" ==> r
  {
    var pm := NewPermissionManager(userRole);
    if userRole == "student" then targetUserId == currentUserId && HasPermission(pm, AttendanceReadOwn)
    else HasPermission(pm, AttendanceReadAll)
  }

  /** `canUserManageUsers(userRole)`. */
  function CanUserManageUsers(userRole: string): (r: bool)
    ensures r <==> userRole == "admin"
  {
    HasAnyPermission(NewPermissionManager(userRole), ManageUsersPermissions)
  }

  /** `canUserExportData(userRole)`. */
  function CanUserExportData(userRole: string): (r: bool)
    ensures r <==> userRole == "professor" || userRole == "admin"
  {
    HasAnyPermission(NewPermissionManager(userRole), ExportPermissions)
  }

  /** `canUserViewAnalytics(userRole)`. */
  function CanUserViewAnalytics(userRole: string): (r: bool)
    ensures r <==> userRole == "professor" || userRole == "admin"
  {
    HasPermission(NewPermissionManager(userRole), AnalyticsRead)
  }

  /** `canUserManageBackups(userRole)`. */
  function CanUserManageBackups(userRole: string): (r: bool)
    ensures r <==> userRole == "admin"
  {
    HasAnyPermission(NewPermissionManager(userRole), BackupPermissions)
  }

  /** `canUserManageSystem(userRole)`. */
  function CanUserManageSystem(userRole: string): (r: bool)
    ensures r <==> userRole == "admin"
  {
    HasPermission(NewPermissionManager(userRole), SystemAdmin)
  }

  /** The helpers agree with the manager's own checks for every role. */
  lemma HelpersMatchManager(role: string)
    ensures var pm := NewPermissionManager(role);
      && CanUserManageUsers(role) == CanManageUsers(pm)
      && CanUserExportData(role) == CanExportData(pm)
      && CanUserViewAnalytics(role) == CanViewAnalytics(pm)
      && CanUserManageSystem(role) == CanManageSystem(pm)
  {
  }
}
