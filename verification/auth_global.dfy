/** The route middleware middleware/auth.global.ts: visitors who are not logged in
    are sent to the login page, logged-in users are kept away from the login and
    registration pages. */
module AuthGlobal {
  import opened Common

  const AuthRoutes: seq<string> := ["/login", "/register"]

  /** The decision for a navigation to `path`. */
  function AuthGlobal(path: string, loggedIn: bool): (r: Navigation)
    ensures loggedIn && path in AuthRoutes ==> r == Redirect("/")
    ensures !loggedIn && path !in AuthRoutes ==> r == Redirect("/login")
    ensures r == Proceed <==> (loggedIn <==> path !in AuthRoutes)
    ensures !r.Abort?
  {
    if loggedIn && path in AuthRoutes then Redirect("/")
    else if !loggedIn && path !in AuthRoutes then Redirect("/login")
    else Proceed
  }

  /** The middleware never redirects a page to itself, and the page it redirects to
      is let through on the next navigation, so redirects never loop. */
  lemma RedirectSettles(path: string, loggedIn: bool)
    ensures AuthGlobal(path, loggedIn).Redirect? ==>
      && AuthGlobal(path, loggedIn).target != path
      && AuthGlobal(AuthGlobal(path, loggedIn).target, loggedIn) == Proceed
  {
    assert "/" !in AuthRoutes;
    assert "/login" in AuthRoutes;
  }
}
