/** `POST /api/teacher-applications` (server/api/teacher-applications/index.post.ts):
    a student applies to become a teacher, at most once. */
module TeacherApplications {
  import opened Common
  import opened Strings
  import opened Schema
  import opened AuthGuards

  datatype Application = Application(
    id: int,
    userId: int,
    motivation: string,
    experience: Option<string>,
    education: Option<string>)

  /** The request body; each field is absent or a string. */
  datatype ApplicationBody = ApplicationBody(
    motivation: Option<string>,
    experience: Option<string>,
    education: Option<string>)

  /** The body schema: a motivation of at least 10 UTF-16 code units. */
  predicate BodyAccepted(body: ApplicationBody) {
    body.motivation.Some? && Utf16Length(body.motivation.value) >= 10
  }

  const OnlyStudents := HttpError(403, "Only students can apply to become teachers")
  const AlreadyApplied := HttpError(409, "You already have a pending application")

  predicate HasApplication(rows: seq<Application>, userId: int) {
    exists a :: a in rows && a.userId == userId
  }

  class ApplicationTable {
    var rows: seq<Application>
    var nextId: int

    /** Serial ids, and at most one application per user. */
    ghost predicate Valid()
      reads this
    {
      && (forall i :: 0 <= i < |rows| ==> rows[i].id < nextId)
      && (forall i, j :: 0 <= i < j < |rows| ==>
            rows[i].id != rows[j].id && rows[i].userId != rows[j].userId)
    }

    constructor ()
      ensures Valid() && rows == []
    {
      rows, nextId := [], 1;
    }

    /** The handler for the context user `user`; it returns the new application's id. */
    method Submit(user: Option<UserRow>, body: ApplicationBody) returns (r: Result<int, HttpError>)
      requires Valid()
      modifies this
      ensures Valid()
      ensures user.None? ==> r == Failure(Unauthorized)
      ensures user.Some? && user.value.role != Some(Student) ==> r == Failure(OnlyStudents)
      ensures user.Some? && user.value.role == Some(Student) && !BodyAccepted(body)
              ==> r == Failure(ValidationError)
      ensures (&& user.Some? && user.value.role == Some(Student) && BodyAccepted(body)
               && HasApplication(old(rows), user.value.id))
              ==> r == Failure(AlreadyApplied)
      ensures (&& user.Some? && user.value.role == Some(Student) && BodyAccepted(body)
               && !HasApplication(old(rows), user.value.id))
              ==> r.Success?
      ensures r.Failure? ==> rows == old(rows) && nextId == old(nextId)
      ensures r.Success? ==>
        && user.Some? && user.value.role == Some(Student) && BodyAccepted(body)
        && !HasApplication(old(rows), user.value.id)
        && r.value == old(nextId) && nextId == old(nextId) + 1
        && rows == old(rows) + [Application(r.value, user.value.id, body.motivation.value,
                                            body.experience, body.education)]
    {
      var current := GetCurrentUser(user);
      if current.Failure? {
        return Failure(current.error);
      }
      var u := current.value;
      if u.role != Some(Student) {
        return Failure(OnlyStudents);
      }
      if !BodyAccepted(body) {
        return Failure(ValidationError);
      }
      if HasApplication(rows, u.id) {
        return Failure(AlreadyApplied);
      }
      var application := Application(nextId, u.id, body.motivation.value, body.experience, body.education);
      rows := rows + [application];
      nextId := nextId + 1;
      r := Success(application.id);
    }
  }
}
