/** The rows of the relational schema that the modelled code reads and writes.
    Only the columns the handlers use are kept. */
module Schema {
  import opened Common

  /** `roleEnum`. The `role` column is nullable, so a user's role is an `Option<Role>`. */
  datatype Role = Student | Teacher | Admin

  /** The value the `role` column takes when an insert does not set it. */
  const DefaultRole: Option<Role> := Some(Student)

  /** A row of `users`. */
  datatype UserRow = UserRow(
    id: int,
    username: string,
    email: string,
    password: string,
    firstname: string,
    lastname: string,
    role: Option<Role>)

  /** The user data kept in a session: a `users` row without its password. */
  datatype SessionUser = SessionUser(
    id: int,
    username: string,
    email: string,
    firstname: string,
    lastname: string,
    role: Option<Role>)

  function WithPassword(s: SessionUser, password: string): (u: UserRow)
    ensures u.password == password
  {
    UserRow(s.id, s.username, s.email, password, s.firstname, s.lastname, s.role)
  }

  /** `const { password: _, ...rest } = user`: everything but the password. */
  function WithoutPassword(u: UserRow): (s: SessionUser)
    ensures WithPassword(s, u.password) == u
  {
    SessionUser(u.id, u.username, u.email, u.firstname, u.lastname, u.role)
  }

  /** `users.email` is declared unique. */
  predicate EmailsUnique(users: seq<UserRow>) {
    forall i, j :: 0 <= i < j < |users| ==> users[i].email != users[j].email
  }

  /** A row of `users_to_courses`. Its key is a serial id only, so the same
      (userId, courseId) pair may occur in several rows. */
  datatype Participation = Participation(id: int, userId: int, courseId: int)

  /** A row of `courses_progress`. Its key is a serial id only, so the same
      (courseId, participationId) pair may occur in several rows. */
  datatype CourseProgressRow = CourseProgressRow(
    id: int,
    courseId: int,
    participationId: int,
    finished: bool)
}
