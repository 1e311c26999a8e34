/** `GET /api/top-instructors` (server/api/top-instructors.get.ts): the teachers with
    at least one course, ranked by the students enrolled in their courses, top 8. The
    query result (teachers with their courses' participation counts) is the input. */
module TopInstructors {
  import opened Common
  import opened Strings
  import opened Schema
  import opened Ranking

  /** A teacher as the query returns it; `courseStudents` holds, per course, the
      number of its participation rows. */
  datatype InstructorRow = InstructorRow(
    id: int,
    firstname: string,
    lastname: string,
    image: Option<string>,
    role: Option<Role>,
    courseStudents: seq<nat>)

  datatype InstructorStats = InstructorStats(
    id: int,
    name: string,
    image: string,
    expertise: string,
    studentsCount: nat,
    coursesCount: nat,
    role: Option<Role>)

  /** `{ instructors, total }`. */
  datatype Response = Response(instructors: seq<InstructorStats>, total: nat)

  const TopCount := 8
  const DefaultAvatar := "/default-avatar.png"
  const NewTeacher := "Новый преподаватель"

  /** `courses.reduce((sum, course) => sum + course.coursesParticipations.length, 0)`. */
  function TotalStudents(counts: seq<nat>): nat {
    if counts == [] then 0 else TotalStudents(counts[..|counts| - 1]) + counts[|counts| - 1]
  }

  /** The total over a list of courses is the sum of the totals of its parts. */
  lemma {:induction false} TotalStudentsAppend(a: seq<nat>, b: seq<nat>)
    ensures TotalStudents(a + b) == TotalStudents(a) + TotalStudents(b)
    decreases |b|
  {
    if b != [] {
      assert (a + b)[..|a + b| - 1] == a + b[..|b| - 1];
      TotalStudentsAppend(a, b[..|b| - 1]);
    } else {
      assert a + b == a;
    }
  }

  /** Every course's count is included in the total. */
  lemma {:induction false} TotalStudentsBounds(counts: seq<nat>, i: nat)
    requires i < |counts|
    ensures counts[i] <= TotalStudents(counts)
  {
    assert counts == counts[..i] + [counts[i]] + counts[i + 1..];
    TotalStudentsAppend(counts[..i] + [counts[i]], counts[i + 1..]);
    TotalStudentsAppend(counts[..i], [counts[i]]);
    assert TotalStudents([counts[i]]) == counts[i] by {
      assert [counts[i]][..0] == [];
    }
  }

  /** The Russian noun form the source appends to the course count. */
  function CourseWord(n: nat): string {
    "курс" + (if n == 1 then "" else if n < 5 then "а" else "ов")
  }

  /** The expertise line: "N курс", "N курса" or "N курсов", or the new-teacher label. */
  function Expertise(n: nat): string {
    if n > 0 then NatToString(n) + " " + CourseWord(n) else NewTeacher
  }

  /** The expertise line follows the source's plural rule (1, 2-4, 5 and more). */
  lemma ExpertisePlural(n: nat)
    ensures n == 0 ==> Expertise(n) == NewTeacher
    ensures n == 1 ==> Expertise(n) == "1 курс"
    ensures 2 <= n < 5 ==> Expertise(n) == NatToString(n) + " курса"
    ensures n >= 5 ==> Expertise(n) == NatToString(n) + " курсов"
  {
    if n == 1 {
      assert NatToString(1) == "1";
    }
  }

  /** The expertise line starts with the course count, which can be read back from it. */
  lemma ExpertiseNamesCount(n: nat)
    requires n > 0
    ensures ParseDigits(LeadingDigits(Expertise(n))) == n
  {
    var tail := " " + CourseWord(n);
    assert Expertise(n) == NatToString(n) + tail;
    LeadingDigitsOfNumeral(NatToString(n), tail);
    ParseNatToString(n);
  }

  /** The `map` step: one instructor's card. */
  function Stats(row: InstructorRow): InstructorStats {
    InstructorStats(
      row.id,
      row.firstname + " " + row.lastname,
      if row.image.Some? && row.image.value != "" then row.image.value else DefaultAvatar,
      Expertise(|row.courseStudents|),
      TotalStudents(row.courseStudents),
      |row.courseStudents|,
      row.role)
  }

  /** The `filter` step: only instructors with at least one course, in input order. */
  function WithCourses(s: seq<InstructorStats>): (r: seq<InstructorStats>)
    ensures forall x :: x in r <==> x in s && x.coursesCount > 0
    ensures multiset(r) <= multiset(s)
  {
    if s == [] then []
    else
      assert s == [s[0]] + s[1..];
      (if s[0].coursesCount > 0 then [s[0]] else []) + WithCourses(s[1..])
  }

  function StudentsCount(x: InstructorStats): int { x.studentsCount }

  /** The instructors that may appear in the ranking. */
  function Eligible(rows: seq<InstructorRow>): seq<InstructorStats> {
    WithCourses(seq(|rows|, i requires 0 <= i < |rows| => Stats(rows[i])))
  }

  /** The whole pipeline: map, filter, sort by students descending, take 8. */
  function TopInstructors(rows: seq<InstructorRow>): Response {
    var ranked := Take(SortDesc(Eligible(rows), StudentsCount), TopCount);
    Response(ranked, |ranked|)
  }

  /** Every eligible entry is the card of an input teacher with at least one course. */
  lemma EligibleFromRows(rows: seq<InstructorRow>, e: InstructorStats)
    requires e in Eligible(rows)
    ensures e.coursesCount > 0 && exists row :: row in rows && e == Stats(row)
  {
    var all := seq(|rows|, i requires 0 <= i < |rows| => Stats(rows[i]));
    var i :| 0 <= i < |all| && all[i] == e;
    assert rows[i] in rows;
  }

  /** What the endpoint promises: `total` is the number returned, at most 8; the
      entries are drawn from the eligible cards as a multiset; every entry is the card of an input teacher with at least one course; entries come in
      non-increasing student count; and no teacher left out has more students than
      one included. */
  lemma TopInstructorsSpec(rows: seq<InstructorRow>)
    ensures TopInstructors(rows).total == |TopInstructors(rows).instructors|
    ensures TopInstructors(rows).total
            == (if |Eligible(rows)| < TopCount then |Eligible(rows)| else TopCount)
    ensures multiset(TopInstructors(rows).instructors) <= multiset(Eligible(rows))
    ensures forall e :: e in TopInstructors(rows).instructors ==>
              e.coursesCount > 0 && exists row :: row in rows && e == Stats(row)
    ensures SortedDesc(TopInstructors(rows).instructors, StudentsCount)
    ensures forall x, y ::
              x in Eligible(rows) && x !in TopInstructors(rows).instructors
              && y in TopInstructors(rows).instructors
              ==> y.studentsCount >= x.studentsCount
  {
    var eligible := Eligible(rows);
    var top := TopInstructors(rows).instructors;
    assert top == Take(SortDesc(eligible, StudentsCount), TopCount);
    TopIsSorted(eligible, StudentsCount, TopCount);
    TopIsBest(eligible, StudentsCount, TopCount);
    forall e | e in top
      ensures e.coursesCount > 0 && exists row :: row in rows && e == Stats(row)
    {
      DrawnFrom(top, eligible, e);
      EligibleFromRows(rows, e);
    }
    forall x, y | x in eligible && x !in top && y in top
      ensures y.studentsCount >= x.studentsCount
    {
      assert StudentsCount(y) >= StudentsCount(x);
    }
  }
}
