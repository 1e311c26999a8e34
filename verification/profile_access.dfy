/** The route middleware middleware/profile-access.global.ts: the settings page
    needs a login, and the pages that create or edit courses and tests need the
    teacher or admin role. */
module ProfileAccess {
  import opened Common
  import opened Strings
  import opened Schema

  const Settings := "/app/settings"
  const CourseEditorRequired :=
    HttpError(403, "Access denied. You must be a teacher or admin to create/edit courses.")
  const TestEditorRequired :=
    HttpError(403, "Access denied. You must be a teacher or admin to create/edit tests.")

  predicate EditsCourse(path: string) {
    Contains(path, "create-course") || Contains(path, "edit-course")
  }

  predicate EditsTest(path: string) {
    Contains(path, "create-test") || Contains(path, "edit-test")
  }

  predicate MayEdit(user: SessionUser) {
    user.role == Some(Teacher) || user.role == Some(Admin)
  }

  /** The decision for a navigation to `path` by the session user `user`; the three
      rules run in turn and the first that redirects or aborts decides. */
  function ProfileAccess(path: string, user: Option<SessionUser>): (r: Navigation)
    ensures user.None? ==>
      r == (if path == Settings || EditsCourse(path) || EditsTest(path) then Redirect("/login") else Proceed)
    ensures user.Some? && MayEdit(user.value) ==> r == Proceed
    ensures user.Some? && !MayEdit(user.value) ==>
      r == (if EditsCourse(path) then Abort(CourseEditorRequired)
            else if EditsTest(path) then Abort(TestEditorRequired)
            else Proceed)
  {
    if path == Settings && user.None? then Redirect("/login")
    else if EditsCourse(path) && user.None? then Redirect("/login")
    else if EditsCourse(path) && user.value.role != Some(Teacher) && user.value.role != Some(Admin) then
      Abort(CourseEditorRequired)
    else if EditsTest(path) && user.None? then Redirect("/login")
    else if EditsTest(path) && user.value.role != Some(Teacher) && user.value.role != Some(Admin) then
      Abort(TestEditorRequired)
    else Proceed
  }

  /** The course rule is a substring test: "edit-course" anywhere in a path, such as
      in `/app/courses/7/edit-course`, guards it; a user who may not edit is refused
      there and a visitor is sent to log in. */
  lemma NestedEditorPath(before: string, after: string, user: SessionUser)
    requires !MayEdit(user)
    ensures ProfileAccess(before + "edit-course" + after, Some(user)) == Abort(CourseEditorRequired)
    ensures ProfileAccess(before + "edit-course" + after, None) == Redirect("/login")
  {
    var p := before + "edit-course" + after;
    assert p[|before|..|before| + |"edit-course"|] == "edit-course";
    ContainsAt(p, "edit-course", |before|);
  }
}
