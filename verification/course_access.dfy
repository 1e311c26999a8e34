/** The route middleware middleware/course-access.global.ts: module pages of a course
    need a login, and a test page is refused when the server's access check for that
    test fails. The check (`$fetch` of `/api/tests/{id}/check-access`, which fails
    by throwing) is the oracle `checkAccess`. */
module CourseAccess {
  import opened Common
  import opened Strings
  import opened Schema

  const TestsSegment := "/tests/"
  const TestDenied := HttpError(403, "Access denied. You cannot access this test.")

  /** The pattern `/\/tests\/(\d+)/` matches at position `i`. */
  predicate MatchAt(path: string, i: int) {
    0 <= i && i + 8 <= |path| && path[i..i + 7] == TestsSegment && IsDigit(path[i + 7])
  }

  /** The captured group of a match at `i`, read by `parseInt`. */
  function CapturedId(path: string, i: nat): nat
    requires i + 7 <= |path|
  {
    ParseDigits(LeadingDigits(path[i + 7..]))
  }

  /** The leftmost match at or after `i`, as `String.prototype.match` finds it. */
  function TestIdFrom(path: string, i: nat): (r: Option<nat>)
    requires i <= |path|
    ensures r.Some? ==> exists k :: (&& i <= k && MatchAt(path, k) && r.value == CapturedId(path, k)
                                     && forall j :: i <= j < k ==> !MatchAt(path, j))
    ensures r.None? <==> forall j :: i <= j ==> !MatchAt(path, j)
    decreases |path| - i
  {
    if MatchAt(path, i) then Some(CapturedId(path, i))
    else if i + 8 >= |path| then
      assert forall j :: i <= j ==> !MatchAt(path, j) by {
        forall j | i < j ensures !MatchAt(path, j) {}
      }
      None
    else TestIdFrom(path, i + 1)
  }

  /** `to.path.match(/\/tests\/(\d+)/)`, with the group read by `parseInt`: the id
      after the leftmost "/tests/" that a digit follows. */
  function TestId(path: string): (r: Option<nat>)
    ensures r.Some? ==> exists k :: (&& MatchAt(path, k) && r.value == CapturedId(path, k)
                                     && forall j :: 0 <= j < k ==> !MatchAt(path, j))
    ensures r.None? <==> forall j :: !MatchAt(path, j)
  {
    TestIdFrom(path, 0)
  }

  /** A match contains "/tests/", so the `includes('/tests/')` test in front of
      the match never changes the outcome. */
  lemma {:induction false} MatchImpliesSegment(path: string)
    ensures TestId(path).Some? ==> Contains(path, TestsSegment)
  {
    if TestId(path).Some? {
      var k :| MatchAt(path, k) && TestId(path).value == CapturedId(path, k);
      ContainsAt(path, TestsSegment, k);
    }
  }

  /** The id of a test page is read back from its path: "/tests/" followed by the
      numeral of `n` and anything that does not continue the numeral. */
  lemma {:induction false} TestIdOfTestPage(n: nat, rest: string)
    requires rest == [] || !IsDigit(rest[0])
    ensures TestId(TestsSegment + NatToString(n) + rest) == Some(n)
  {
    var path := TestsSegment + NatToString(n) + rest;
    var digits := NatToString(n);
    assert path[..7] == TestsSegment;
    assert path[7] == digits[0];
    assert MatchAt(path, 0);
    assert path[7..] == digits + rest;
    LeadingDigitsOfNumeral(digits, rest);
    ParseNatToString(n);
  }

  predicate ModulesPage(path: string) {
    Contains(path, "/courses/") && Contains(path, "/modules/")
  }

  /** The decision for a navigation to `path` by the session user `user`. The
      modules rule only redirects visitors who are not logged in and otherwise
      falls through to the tests rule. */
  function CourseAccess(path: string, user: Option<SessionUser>, checkAccess: nat -> bool): (r: Navigation)
    ensures user.None? ==> r == (if ModulesPage(path) then Redirect("/login") else Proceed)
    ensures user.Some? ==>
      r == (if TestId(path).Some? && !checkAccess(TestId(path).value) then Abort(TestDenied) else Proceed)
  {
    MatchImpliesSegment(path);
    if ModulesPage(path) && user.None? then Redirect("/login")
    else if Contains(path, TestsSegment) && user.Some? then
      match TestId(path)
      case None => Proceed
      case Some(testId) => if checkAccess(testId) then Proceed else Abort(TestDenied)
    else Proceed
  }

  /** A logged-in user is never turned away from a modules page for want of
      enrolment: the page is refused only when its path also names a test, after
      "/tests/", and the access check for that test fails. */
  lemma ModulesPageNotDenied(path: string, user: SessionUser, checkAccess: nat -> bool)
    requires ModulesPage(path)
    ensures !CourseAccess(path, Some(user), checkAccess).Redirect?
    ensures CourseAccess(path, Some(user), checkAccess).Abort? ==>
      && Contains(path, TestsSegment)
      && TestId(path).Some?
      && !checkAccess(TestId(path).value)
  {
    MatchImpliesSegment(path);
  }
}
