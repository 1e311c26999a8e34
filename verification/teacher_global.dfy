/** The route middleware middleware/teacher.global.ts: the instructor pages and the
    teacher-application, my-courses and settings pages need a login, and
    my-courses needs the teacher or admin role. */
module TeacherGlobal {
  import opened Common
  import opened Strings
  import opened Schema
  import opened AuthGuards

  const TeacherRoutes: seq<string> := ["/app/apply-teacher"]
  const TeacherOnlyRoutes: seq<string> := ["/app/my-courses", "/app/settings"]
  const MyCourses := "/app/my-courses"

  const TeacherRequired := HttpError(403, "Access denied. Teacher or admin role required.")

  predicate TeachesOrAdministers(user: SessionUser) {
    user.role == Some(Teacher) || user.role == Some(Admin)
  }

  /** The paths for which the middleware demands a login. */
  predicate NeedsLogin(path: string) {
    StartsWith(path, "/instructors") || path in TeacherRoutes || path in TeacherOnlyRoutes
  }

  /** The decision for a navigation to `path` by the session user `user`. */
  function TeacherGlobal(path: string, user: Option<SessionUser>): (r: Navigation)
    ensures user.None? ==> r == (if NeedsLogin(path) then Redirect("/login") else Proceed)
    ensures user.Some? && path == MyCourses ==>
      r == (if TeachesOrAdministers(user.value) then Proceed else Abort(TeacherRequired))
    ensures user.Some? && path != MyCourses ==> r == Proceed
  {
    assert !StartsWith(MyCourses, "/instructors") by { assert MyCourses[..12][1] != "/instructors"[1]; }
    if StartsWith(path, "/instructors") then
      if user.None? then Redirect("/login") else Proceed
    else if path in TeacherRoutes then
      if user.None? then Redirect("/login") else Proceed
    else if path in TeacherOnlyRoutes then
      if user.None? then Redirect("/login")
      else if path == MyCourses && user.value.role != Some(Teacher) && user.value.role != Some(Admin) then
        Abort(TeacherRequired)
      else Proceed
    else Proceed
  }

  /** The instructor rule comes first, and the settings page needs only a login:
      every logged-in user, whatever the role, reaches both. */
  lemma LoginOnlyPages(path: string, user: SessionUser)
    requires StartsWith(path, "/instructors") || path == "/app/settings" || path == "/app/apply-teacher"
    ensures TeacherGlobal(path, Some(user)) == Proceed
    ensures TeacherGlobal(path, None) == Redirect("/login")
  {
    assert path == "/app/settings" ==> path in TeacherOnlyRoutes;
    assert path == "/app/apply-teacher" ==> path in TeacherRoutes;
  }

  /** On my-courses the page guard admits exactly the users the API's
      `requireTeacherOrAdmin` admits. */
  lemma MyCoursesAgreesWithRequireTeacherOrAdmin(u: UserRow)
    ensures TeacherGlobal(MyCourses, Some(WithoutPassword(u))) == Proceed
            <==> RequireTeacherOrAdmin(Some(u)) == Pass
  {
  }
}
