/** The route middleware middleware/admin.global.ts: the pages under `/admin` are
    for administrators only. */
module AdminGlobal {
  import opened Common
  import opened Strings
  import opened Schema
  import opened AuthGuards

  const AdminRequired := HttpError(403, "Access denied. Admin role required.")

  /** The decision for a navigation to `path` by the session user `user`. */
  function AdminGlobal(path: string, user: Option<SessionUser>): (r: Navigation)
    ensures !StartsWith(path, "/admin") ==> r == Proceed
    ensures StartsWith(path, "/admin") && user.None? ==> r == Redirect("/login")
    ensures StartsWith(path, "/admin") && user.Some? ==>
      r == (if user.value.role == Some(Admin) then Proceed else Abort(AdminRequired))
  {
    if StartsWith(path, "/admin") then
      if user.None? then Redirect("/login")
      else if user.value.role != Some(Admin) then Abort(AdminRequired)
      else Proceed
    else Proceed
  }

  /** The page guard admits exactly the users the API's `requireAdmin` admits, and
      where the API answers 401 the page sends the visitor to log in. */
  lemma AgreesWithRequireAdmin(path: string, u: Option<UserRow>)
    requires StartsWith(path, "/admin")
    ensures var s := if u.Some? then Some(WithoutPassword(u.value)) else None;
      && (AdminGlobal(path, s) == Proceed <==> RequireAdmin(u) == Pass)
      && (AdminGlobal(path, s) == Redirect("/login") <==> RequireAdmin(u) == Fail(Unauthorized))
      && (AdminGlobal(path, s).Abort? <==> RequireAdmin(u).Fail? && RequireAdmin(u).error.status == 403)
  {
  }
}
