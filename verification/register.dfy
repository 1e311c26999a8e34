/** `POST /api/auth/register` (server/api/auth/register.post.ts): create an account
    with a fresh username and log the new user in. */
module Register {
  import opened Common
  import opened Strings
  import opened Schema

  /** The request body; each field is absent or a string. */
  datatype RegisterBody = RegisterBody(
    username: Option<string>,
    email: Option<string>,
    password: Option<string>,
    firstname: Option<string>,
    lastname: Option<string>)

  /** The body schema; zod's `min` counts UTF-16 code units. `isEmail` stands for
      zod's e-mail format check. */
  predicate BodyAccepted(body: RegisterBody, isEmail: string -> bool) {
    && body.username.Some? && |body.username.value| >= 1
    && body.email.Some? && isEmail(body.email.value)
    && body.password.Some? && Utf16Length(body.password.value) >= 6
    && body.firstname.Some? && |body.firstname.value| >= 1
    && body.lastname.Some? && |body.lastname.value| >= 1
  }

  const UserExists := HttpError(409, "Пользователь уже существует")

  predicate HasUsername(users: seq<UserRow>, username: string) {
    exists u :: u in users && u.username == username
  }

  predicate HasEmail(users: seq<UserRow>, email: string) {
    exists u :: u in users && u.email == email
  }

  class Accounts {
    var users: seq<UserRow>
    var nextId: int
    /** The user data of the request's session. */
    var session: Option<SessionUser>

    /** Serial ids, unique e-mails (a schema constraint) and unique usernames (what
        this handler's check keeps). */
    ghost predicate Valid()
      reads this
    {
      && (forall i :: 0 <= i < |users| ==> users[i].id < nextId)
      && (forall i, j :: 0 <= i < j < |users| ==>
            users[i].id != users[j].id && users[i].username != users[j].username)
      && EmailsUnique(users)
    }

    constructor ()
      ensures Valid() && users == [] && session == None
    {
      users, nextId, session := [], 1, None;
    }

    /** The handler; `hash` stands for `hashPassword`. */
    method Register(body: RegisterBody, isEmail: string -> bool, hash: string -> string)
      returns (r: Outcome<HttpError>)
      requires Valid()
      modifies this
      ensures Valid()
      ensures !BodyAccepted(body, isEmail) ==> r == Fail(ValidationError)
      ensures BodyAccepted(body, isEmail) && HasUsername(old(users), body.username.value)
              ==> r == Fail(UserExists)
      ensures (&& BodyAccepted(body, isEmail) && !HasUsername(old(users), body.username.value)
               && HasEmail(old(users), body.email.value))
              ==> r == Fail(DatabaseError) && users == old(users) && nextId == old(nextId) + 1
      ensures (&& BodyAccepted(body, isEmail) && !HasUsername(old(users), body.username.value)
               && !HasEmail(old(users), body.email.value))
              ==> r == Pass
      ensures r.Fail? ==> users == old(users) && session == old(session)
      ensures !BodyAccepted(body, isEmail) || HasUsername(old(users), body.username.value)
              ==> nextId == old(nextId)
      ensures r == Pass ==>
        var row := UserRow(old(nextId), body.username.value, body.email.value,
                           hash(body.password.value), body.firstname.value, body.lastname.value,
                           DefaultRole);
        && BodyAccepted(body, isEmail)
        && !HasUsername(old(users), body.username.value)
        && !HasEmail(old(users), body.email.value)
        && users == old(users) + [row] && nextId == old(nextId) + 1
        && session == Some(WithoutPassword(row))
    {
      if !BodyAccepted(body, isEmail) {
        return Fail(ValidationError);
      }
      var username := body.username.value;
      if HasUsername(users, username) {
        return Fail(UserExists);
      }
      var hashedPassword := hash(body.password.value);
      if HasEmail(users, body.email.value) {
        // the unique constraint on users.email rejects the insert, after the serial
        // default has drawn an id
        nextId := nextId + 1;
        return Fail(DatabaseError);
      }
      var row := UserRow(nextId, username, body.email.value, hashedPassword,
                         body.firstname.value, body.lastname.value, DefaultRole);
      users := users + [row];
      nextId := nextId + 1;
      session := Some(WithoutPassword(row));
      r := Pass;
    }
  }
}
