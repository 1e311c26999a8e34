/** The server middleware server/middleware/01.auth.ts: for protected API paths it
    reloads the session's user from `users`, refreshes the session without the
    password and puts the full row into the request context. */
module ApiAuth {
  import opened Common
  import opened Strings
  import opened Schema

  /** The API paths that need no session. */
  const PublicApiPaths: seq<string> := ["/api/auth/login", "/api/auth/register", "/api/seed"]

  const Unauthorized := HttpError(401, "Unauthorized")

  /** Whether the middleware authenticates a request for `path`. */
  predicate RequiresAuth(path: string) {
    StartsWith(path, "/api") && path !in PublicApiPaths
  }

  /** `users.findFirst` by id: the first row with that id. */
  function FindUser(users: seq<UserRow>, id: int): (r: Option<UserRow>)
    ensures r.Some? ==> r.value in users && r.value.id == id
    ensures r.None? <==> forall u :: u in users ==> u.id != id
  {
    match FirstIndex(users, (u: UserRow) => u.id == id)
    case None => None
    case Some(i) => Some(users[i])
  }

  /** The public paths and the non-API paths pass. The public list is matched
      exactly: a public path extended by anything, such as "/api/seed/", is an API
      path like any other and is authenticated. */
  lemma PathGate(path: string, rest: string)
    ensures path in PublicApiPaths ==> !RequiresAuth(path)
    ensures path in PublicApiPaths && rest != [] ==> RequiresAuth(path + rest)
    ensures !StartsWith(path, "/api") ==> !RequiresAuth(path)
  {
    if path in PublicApiPaths && rest != [] {
      var p := path + rest;
      assert p[..|path|] == path;
      assert p[..4] == path[..4];
      assert "/api/auth/register"[..15][10] != "/api/auth/login"[10];
      assert "/api/auth/register"[..9][5] != "/api/seed"[5];
      assert "/api/auth/login"[..9][5] != "/api/seed"[5];
    }
  }

  /** The request: the session store of the client and `event.context`. */
  class Request {
    var session: Option<SessionUser>
    var user: Option<UserRow>

    constructor (session: Option<SessionUser>)
      ensures this.session == session && user == None
    {
      this.session := session;
      user := None;
    }

    /** The middleware. `requireUserSession` rejects a request without a session
        with 401; so does a session whose user no longer exists. */
    method Authenticate(path: string, users: seq<UserRow>) returns (r: Outcome<HttpError>)
      modifies this
      ensures !RequiresAuth(path) ==> r == Pass && session == old(session) && user == old(user)
      ensures RequiresAuth(path) && old(session).None? ==>
        r == Fail(Unauthorized) && session == old(session) && user == old(user)
      ensures RequiresAuth(path) && old(session).Some? && FindUser(users, old(session).value.id).None?
        ==> r == Fail(Unauthorized) && session == old(session) && user == old(user)
      ensures RequiresAuth(path) && old(session).Some? && FindUser(users, old(session).value.id).Some?
        ==> r == Pass
      ensures r == Pass && RequiresAuth(path) ==>
        && old(session).Some?
        && FindUser(users, old(session).value.id).Some?
        && var row := FindUser(users, old(session).value.id).value;
        && user == Some(row)
        && session == Some(WithoutPassword(row))
      ensures r.Fail? ==> RequiresAuth(path)
    {
      if !RequiresAuth(path) {
        return Pass;
      }
      if session.None? {
        return Fail(Unauthorized);
      }
      var found := FindUser(users, session.value.id);
      if found.None? {
        return Fail(Unauthorized);
      }
      var row := found.value;
      session := Some(WithoutPassword(row));
      user := Some(row);
      r := Pass;
    }
  }
}
