/** `POST /api/wishlist` (server/api/wishlist/index.post.ts): add a course to the
    caller's wishlist unless it is already there. */
module WishlistAdd {
  import opened Common
  import opened Schema
  import opened Body

  datatype WishlistItem = WishlistItem(userId: int, courseId: int)

  /** `{ success: true, existingItem }` or `{ success: true, wishlistItem }`. */
  datatype AddResponse = AddResponse(success: bool, alreadyPresent: bool, item: WishlistItem)

  const CourseIdRequired := HttpError(400, "Course ID is required")
  const CourseNotFound := HttpError(404, "Course not found")

  class Wishlist {
    /** The ids of the `courses` table, which this handler only reads. */
    var courses: set<int>
    var items: seq<WishlistItem>

    /** At most one wishlist row per (user, course) pair. */
    ghost predicate Valid()
      reads this
    {
      Distinct(items)
    }

    constructor (courses: set<int>)
      ensures Valid() && this.courses == courses && items == []
    {
      this.courses, items := courses, [];
    }

    /** The handler, for the context user `user` (the server auth middleware has set
        it, since the path is under /api) and the body field `courseId`. */
    method Add(user: UserRow, courseId: BodyValue) returns (r: Result<AddResponse, HttpError>)
      requires Valid()
      modifies this`items
      ensures Valid()
      ensures !Truthy(courseId) ==> r == Failure(CourseIdRequired)
      ensures Truthy(courseId) && ParamId(courseId).None? ==> r == Failure(DatabaseError)
      ensures Truthy(courseId) && ParamId(courseId).Some? && ParamId(courseId).value !in courses
              ==> r == Failure(CourseNotFound)
      ensures r.Failure? ==> items == old(items)
      ensures r.Success? ==>
        var item := WishlistItem(user.id, ParamId(courseId).value);
        && r.value.success && r.value.item == item
        && Truthy(courseId) && item.courseId in courses
        && multiset(items)[item] == 1
        && r.value.alreadyPresent == (item in old(items))
        && items == (if item in old(items) then old(items) else old(items) + [item])
      ensures Truthy(courseId) && ParamId(courseId).Some? && ParamId(courseId).value in courses
              ==> r.Success?
    {
      if !Truthy(courseId) {
        return Failure(CourseIdRequired);
      }
      var id := ParamId(courseId);
      if id.None? {
        return Failure(DatabaseError);
      }
      if id.value !in courses {
        return Failure(CourseNotFound);
      }
      var item := WishlistItem(user.id, id.value);
      if item in items {
        DistinctOccursOnce(items, item);
        return Success(AddResponse(true, true, item));
      }
      items := items + [item];
      DistinctOccursOnce(items, item);
      r := Success(AddResponse(true, false, item));
    }
  }
}
