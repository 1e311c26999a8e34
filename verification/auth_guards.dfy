/** The role guards of server/utils/auth.ts. Each reads the request context's user
    (set by the server auth middleware) and either returns or raises an error. */
module AuthGuards {
  import opened Common
  import opened Schema

  const Unauthorized := HttpError(401, "Unauthorized")

  /** `requireAdmin`. */
  function RequireAdmin(user: Option<UserRow>): (r: Outcome<HttpError>)
    ensures r == Pass <==> user.Some? && user.value.role == Some(Admin)
    ensures user.None? ==> r == Fail(Unauthorized)
    ensures user.Some? && r.Fail? ==> r.error.status == 403
  {
    if user.None? then Fail(Unauthorized)
    else if user.value.role != Some(Admin) then
      Fail(HttpError(403, "Access denied. Admin role required."))
    else Pass
  }

  /** `requireTeacherOrAdmin`. */
  function RequireTeacherOrAdmin(user: Option<UserRow>): (r: Outcome<HttpError>)
    ensures r == Pass <==> user.Some? && user.value.role in {Some(Teacher), Some(Admin)}
    ensures user.None? ==> r == Fail(Unauthorized)
    ensures user.Some? && r.Fail? ==> r.error.status == 403
  {
    if user.None? then Fail(Unauthorized)
    else if user.value.role != Some(Teacher) && user.value.role != Some(Admin) then
      Fail(HttpError(403, "Access denied. Teacher or admin role required."))
    else Pass
  }

  /** `requireStudent`. */
  function RequireStudent(user: Option<UserRow>): (r: Outcome<HttpError>)
    ensures r == Pass <==> user.Some? && user.value.role == Some(Student)
    ensures user.None? ==> r == Fail(Unauthorized)
    ensures user.Some? && r.Fail? ==> r.error.status == 403
  {
    if user.None? then Fail(Unauthorized)
    else if user.value.role != Some(Student) then
      Fail(HttpError(403, "Access denied. Student role required."))
    else Pass
  }

  /** `getCurrentUser`: the context user itself, or 401 when there is none. */
  function GetCurrentUser(user: Option<UserRow>): (r: Result<UserRow, HttpError>)
    ensures user.None? <==> r == Failure(Unauthorized)
    ensures user.Some? ==> r == Success(user.value)
  {
    if user.None? then Failure(Unauthorized) else Success(user.value)
  }

  /** A missing user is always 401, never 403, whichever guard runs: the user
      check precedes the role check in each of them. */
  lemma NoUserIsUnauthorized()
    ensures RequireAdmin(None) == RequireTeacherOrAdmin(None) == RequireStudent(None)
            == Fail(Unauthorized)
    ensures GetCurrentUser(None) == Failure(Unauthorized)
  {
  }

  /** A user whose role column is null passes none of the role guards. */
  lemma NullRoleFailsEveryGuard(u: UserRow)
    requires u.role.None?
    ensures RequireAdmin(Some(u)).Fail? && RequireAdmin(Some(u)).error.status == 403
    ensures RequireTeacherOrAdmin(Some(u)).Fail? && RequireTeacherOrAdmin(Some(u)).error.status == 403
    ensures RequireStudent(Some(u)).Fail? && RequireStudent(Some(u)).error.status == 403
  {
  }

  /** Every role passes exactly one of `requireStudent` and `requireTeacherOrAdmin`,
      and `requireAdmin` only ever admits users `requireTeacherOrAdmin` admits. */
  lemma RoleGuardsPartition(u: UserRow)
    requires u.role.Some?
    ensures (RequireStudent(Some(u)) == Pass) != (RequireTeacherOrAdmin(Some(u)) == Pass)
    ensures RequireAdmin(Some(u)) == Pass ==> RequireTeacherOrAdmin(Some(u)) == Pass
  {
    match u.role.value
    case Student =>
    case Teacher =>
    case Admin =>
  }
}
