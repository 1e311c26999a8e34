/** `GET /api/popular-courses` (server/api/popular-courses.get.ts): the courses ranked by
    the number of students enrolled in them, top 6. The query result (courses with
    their participation rows, creator names and category name) is the input. */
module PopularCourses {
  import opened Common
  import opened Ranking

  /** The creator's names as the query returns them. */
  datatype Creator = Creator(firstname: string, lastname: string)

  /** A course as the query returns it. `participants` is the number of its
      participation rows; `categoryName` is absent when the course has no category
      or the category has no name. */
  datatype CourseRow = CourseRow(
    id: int,
    title: string,
    description: string,
    image: Option<string>,
    creatorId: int,
    participants: nat,
    creator: Option<Creator>,
    categoryName: Option<string>)

  datatype CourseStats = CourseStats(
    id: int,
    title: string,
    description: string,
    image: Option<string>,
    students: nat,
    creatorId: int,
    categoryName: string,
    creatorName: string)

  /** `{ courses, total }`. */
  datatype Response = Response(courses: seq<CourseStats>, total: nat)

  const TopCount := 6
  const NoCategory := "Без категории"
  const UnknownTeacher := "Неизвестный преподаватель"

  /** `course.category?.name || 'Без категории'`: an absent or empty name falls back. */
  function CategoryName(name: Option<string>): (r: string)
    ensures name.Some? && name.value != "" ==> r == name.value
    ensures name.None? || name.value == "" ==> r == NoCategory
    ensures r != ""
  {
    if name.Some? && name.value != "" then name.value else NoCategory
  }

  /** The creator's full name, or the unknown-teacher label when there is no creator. */
  function CreatorName(creator: Option<Creator>): (r: string)
    ensures creator.None? ==> r == UnknownTeacher
    ensures creator.Some? ==>
      && |r| == |creator.value.firstname| + 1 + |creator.value.lastname|
      && r[..|creator.value.firstname|] == creator.value.firstname
      && r[|creator.value.firstname|] == ' '
      && r[|creator.value.firstname| + 1..] == creator.value.lastname
  {
    if creator.Some? then creator.value.firstname + " " + creator.value.lastname
    else UnknownTeacher
  }

  /** The `map` step: one course's card. */
  function Stats(row: CourseRow): CourseStats {
    CourseStats(
      row.id,
      row.title,
      row.description,
      row.image,
      row.participants,
      row.creatorId,
      CategoryName(row.categoryName),
      CreatorName(row.creator))
  }

  function Students(x: CourseStats): int { x.students }

  /** Every course's card, in input order. */
  function AllStats(rows: seq<CourseRow>): (r: seq<CourseStats>)
    ensures |r| == |rows|
    ensures forall i :: 0 <= i < |rows| ==> r[i] == Stats(rows[i])
  {
    seq(|rows|, i requires 0 <= i < |rows| => Stats(rows[i]))
  }

  /** The whole pipeline: map, sort by students descending, take 6. */
  function PopularCourses(rows: seq<CourseRow>): Response {
    var ranked := Take(SortDesc(AllStats(rows), Students), TopCount);
    Response(ranked, |ranked|)
  }

  /** Every returned entry is the card of an input course. */
  lemma PopularFromRows(rows: seq<CourseRow>, c: CourseStats)
    requires c in PopularCourses(rows).courses
    ensures exists row :: row in rows && c == Stats(row)
  {
    var all := AllStats(rows);
    TopIsSorted(all, Students, TopCount);
    DrawnFrom(PopularCourses(rows).courses, all, c);
    var i :| 0 <= i < |all| && all[i] == c;
    assert rows[i] in rows;
  }

  /** No course left out has more students than one returned. */
  lemma PopularBeatsRest(rows: seq<CourseRow>, row: CourseRow, c: CourseStats)
    requires row in rows && c in PopularCourses(rows).courses
    requires Stats(row) !in PopularCourses(rows).courses
    ensures c.students >= row.participants
  {
    var all := AllStats(rows);
    TopIsBest(all, Students, TopCount);
    var k :| 0 <= k < |rows| && rows[k] == row;
    assert all[k] == Stats(row);
    assert Students(c) >= Students(all[k]);
  }

  /** The response counts what it returns: min(6, number of courses). */
  lemma PopularTotal(rows: seq<CourseRow>)
    ensures PopularCourses(rows).total == |PopularCourses(rows).courses|
    ensures PopularCourses(rows).total == (if |rows| < TopCount then |rows| else TopCount)
  {
    TopIsSorted(AllStats(rows), Students, TopCount);
  }

  /** The courses come in non-increasing student count. */
  lemma PopularOrdered(rows: seq<CourseRow>)
    ensures forall i, j :: 0 <= i < j < |PopularCourses(rows).courses| ==>
              PopularCourses(rows).courses[i].students >= PopularCourses(rows).courses[j].students
  {
    var top := PopularCourses(rows).courses;
    TopIsSorted(AllStats(rows), Students, TopCount);
    forall i, j | 0 <= i < j < |top|
      ensures top[i].students >= top[j].students
    {
      assert Students(top[i]) >= Students(top[j]);
    }
  }

  /** What the endpoint promises: `total` is the number returned, min(6, number of
      courses); the entries are drawn from the course cards as a multiset; every
      entry is the card of an input course, so it keeps that course's id, title,
      description and creator id and counts its participations; entries come in
      non-increasing student count; and no course left out has more students than
      one included. */
  lemma PopularCoursesSpec(rows: seq<CourseRow>)
    ensures PopularCourses(rows).total == |PopularCourses(rows).courses|
    ensures PopularCourses(rows).total == (if |rows| < TopCount then |rows| else TopCount)
    ensures multiset(PopularCourses(rows).courses) <= multiset(AllStats(rows))
    ensures forall c :: c in PopularCourses(rows).courses ==>
              exists row :: row in rows && c == Stats(row)
    ensures forall i, j :: 0 <= i < j < |PopularCourses(rows).courses| ==>
              PopularCourses(rows).courses[i].students >= PopularCourses(rows).courses[j].students
    ensures forall row, c :: row in rows && c in PopularCourses(rows).courses
              && Stats(row) !in PopularCourses(rows).courses
              ==> c.students >= row.participants
  {
    var top := PopularCourses(rows).courses;
    TopIsSorted(AllStats(rows), Students, TopCount);
    PopularTotal(rows);
    PopularOrdered(rows);
    forall c | c in top
      ensures exists row :: row in rows && c == Stats(row)
    {
      PopularFromRows(rows, c);
    }
    forall row, c | row in rows && c in top && Stats(row) !in top
      ensures c.students >= row.participants
    {
      PopularBeatsRest(rows, row, c);
    }
  }
}
