/** `POST /api/categories` (server/api/categories/index.post.ts): an admin creates a
    category whose name no other category has. */
module Categories {
  import opened Common
  import opened Schema
  import opened AuthGuards

  datatype Category = Category(
    id: int,
    name: string,
    description: Option<string>,
    image: Option<string>)

  /** The request body; each field is absent or a string. */
  datatype CategoryBody = CategoryBody(
    name: Option<string>,
    description: Option<string>,
    image: Option<string>)

  /** `{ success: true, category, message }`. */
  datatype CreateResponse = CreateResponse(success: bool, category: Category)

  /** The body schema: a non-empty name, and an image that, when present, zod's URL
      check `isUrl` accepts. */
  predicate BodyAccepted(body: CategoryBody, isUrl: string -> bool) {
    && body.name.Some? && |body.name.value| >= 1
    && (body.image.Some? ==> isUrl(body.image.value))
  }

  const NameTaken := HttpError(409, "Category with this name already exists")

  predicate HasName(rows: seq<Category>, name: string) {
    exists c :: c in rows && c.name == name
  }

  class CategoryTable {
    var rows: seq<Category>
    var nextId: int

    /** Serial ids, and category names are unique. */
    ghost predicate Valid()
      reads this
    {
      && (forall i :: 0 <= i < |rows| ==> rows[i].id < nextId)
      && (forall i, j :: 0 <= i < j < |rows| ==>
            rows[i].id != rows[j].id && rows[i].name != rows[j].name)
    }

    constructor ()
      ensures Valid() && rows == []
    {
      rows, nextId := [], 1;
    }

    /** The handler for the context user `user`. */
    method Create(user: Option<UserRow>, body: CategoryBody, isUrl: string -> bool)
      returns (r: Result<CreateResponse, HttpError>)
      requires Valid()
      modifies this
      ensures Valid()
      ensures RequireAdmin(user).Fail? ==> r == Failure(RequireAdmin(user).error)
      ensures RequireAdmin(user) == Pass && !BodyAccepted(body, isUrl) ==> r == Failure(ValidationError)
      ensures RequireAdmin(user) == Pass && BodyAccepted(body, isUrl) && HasName(old(rows), body.name.value)
              ==> r == Failure(NameTaken)
      ensures RequireAdmin(user) == Pass && BodyAccepted(body, isUrl) && !HasName(old(rows), body.name.value)
              ==> r.Success?
      ensures r.Failure? ==> rows == old(rows) && nextId == old(nextId)
      ensures r.Success? ==>
        var c := Category(old(nextId), body.name.value, body.description, body.image);
        && RequireAdmin(user) == Pass && BodyAccepted(body, isUrl)
        && !HasName(old(rows), body.name.value)
        && r.value == CreateResponse(true, c)
        && rows == old(rows) + [c] && nextId == old(nextId) + 1
    {
      var guard := RequireAdmin(user);
      if guard.Fail? {
        return Failure(guard.error);
      }
      if !BodyAccepted(body, isUrl) {
        return Failure(ValidationError);
      }
      var name := body.name.value;
      if HasName(rows, name) {
        return Failure(NameTaken);
      }
      var category := Category(nextId, name, body.description, body.image);
      rows := rows + [category];
      nextId := nextId + 1;
      r := Success(CreateResponse(true, category));
    }
  }
}
