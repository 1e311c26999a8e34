# Learning platform core, modelled in Dafny

This project models the logic of a learning-management web application: courses made of
modules made of lessons, students who enrol in courses, and teachers and admins who create
content. The application is a Nuxt front end over an h3 server with a relational store.
The model covers:

- **Completion cascade.** `updateLessonProgress` finishes a lesson for the user's enrolment.
  When that was the module's last unfinished lesson, it finishes the module. When that was
  the course's last unfinished module, it finishes the course. The tables are a class with
  maps and sequences (`Progress.ProgressStore`). Its method changes them in place, step by
  step, and is proved equal to the pure specification `Progress.Cascade`.
- **Guarded inserts.** Six handlers check and then insert into an in-memory table: the
  wishlist, teacher applications, categories, registration, answers and questions. Each
  method states every error case and, when all checks pass, that the insert happens and
  what it inserts. The wishlist (one row per user and course), teacher applications (one
  per user), categories (unique names) and users (unique usernames and e-mails) keep
  their uniqueness as a class invariant; answers and questions keep fresh ids and their
  foreign key.
- **Ranking and formatting.** The top-instructors and popular-courses pipelines (map,
  filter, stable descending sort, take *n*) and the upload checks with their extension rule.
- **Access control.** The server role guards, the server authentication middleware and the
  five route middlewares. Each route middleware is a function from path and session user to
  `Proceed`, `Redirect(target)` or `Abort(error)`.

Files: `common.dfy`, `strings.dfy`, `body.dfy` and `ranking.dfy` hold the shared vocabulary
(first match, string tests, decimal numerals, `split`, JavaScript truthiness, stable sort).
`schema.dfy` holds the table rows. Each other file models one source file.

Two facts about the cascade worth knowing:

- The course-progress step is not an upsert. The code looks up one `courses_progress` row
  for (course, participation), updates it if found and inserts otherwise; the table has no
  uniqueness on that pair.
- Module completion has no `total > 0` guard, and none is needed:
  `Progress.EmptyModuleNeverMarked` shows that the only module the cascade marks holds the
  lesson just finished.

## Model

| member | source | states |
|---|---|---|
| Progress.ProgressStore.UpdateLessonProgress | server/utils/updateLessonProgress.ts:11-153 | The in-place method fails with exactly the error `Cascade` gives and then changes no table; otherwise the new tables are exactly `Cascade`'s result. The schema's keys and foreign keys are preserved. |
| Progress.ResolvedParticipation | server/utils/updateLessonProgress.ts:15-56 | A participation is resolved exactly when the call succeeds. |
| Progress.CascadeErrors | server/utils/updateLessonProgress.ts:15-56 | Missing lesson gives "Lesson not found", missing module gives "Module not found", and no enrolment of the user in the module's course gives "not enrolled" (iff no such participation exists). Every error precedes the first write. |
| Progress.LessonCountsMatch | server/utils/updateLessonProgress.ts:72-90 | The count comparison holds exactly when every lesson of the module has a finished row for the participation. |
| Progress.ModuleCountsMatch | server/utils/updateLessonProgress.ts:104-122 | The count comparison holds exactly when every module of the course has a finished row for the participation. |
| Progress.CascadeSteps | server/utils/updateLessonProgress.ts:59-148 | On success: the (participation, lesson) row is finished. The (participation, module) row is set finished iff all lessons of the module are now finished, and is untouched otherwise. Course progress changes only when, in addition, all modules are finished. The lesson, module, course and participation tables are unchanged. |
| Progress.MarkCourseFinishedEffect | server/utils/updateLessonProgress.ts:124-148 | The first course-progress row of (course, participation) is set finished; if there is none, one finished row with the next id is appended. Every other row is unchanged. |
| Progress.MarkCourseFinishedIdempotent | server/utils/updateLessonProgress.ts:124-148 | A second course step finds the row the first marked or inserted and changes nothing. |
| Progress.CascadeBranches | server/utils/updateLessonProgress.ts:59-148 | Once the participation is resolved, the call's result is the tables with only the lesson row finished when the module is incomplete; with the module row finished too when the course is incomplete; and with the course marked as well otherwise. |
| Progress.RepeatAfterLessonStep | server/utils/updateLessonProgress.ts:59-90 | When the lesson row is already finished and the module is still incomplete, the call returns the tables unchanged. |
| Progress.RepeatAfterModuleStep | server/utils/updateLessonProgress.ts:59-148 | When the lesson and module rows are already finished and the module is complete, the call changes nothing or only marks the course, depending on whether the course is complete. |
| Progress.CascadeIdempotent | server/utils/updateLessonProgress.ts:59-148 | Running the call twice in a row leaves the same tables as running it once. |
| Progress.CascadeOnlyFinishes | server/utils/updateLessonProgress.ts:59-148 | No flag goes from true to false and no row disappears. Every lesson, module or course row added or changed belongs to the resolved participation. |
| Progress.EmptyModuleNeverMarked | server/utils/updateLessonProgress.ts:72-101 | A module without lessons never gets its progress row created or changed. |
| Progress.LessonStepPreservesValid | server/utils/updateLessonProgress.ts:59-69 | Finishing an existing lesson under an existing participation keeps every key and foreign key. |
| Progress.ModuleStepPreservesValid | server/utils/updateLessonProgress.ts:91-101 | Finishing an existing module under an existing participation keeps every key and foreign key. |
| Progress.MarkCourseFinishedPreservesValid | server/utils/updateLessonProgress.ts:124-148 | Marking an existing course for an existing participation keeps every key; an inserted row takes a fresh, unused id. |
| Progress.CascadePreservesValid | server/utils/updateLessonProgress.ts:59-148 | A successful call keeps the schema's keys, foreign keys and serial-id discipline. |
| Progress.DuplicatePairsAllowed | drizzle/schema.ts:83-92 | Two participations of one user in one course, and two course-progress rows for one pair, satisfy every declared key. The course step then finishes only the first row. |
| Progress.ProgressStore.FinishCourse | server/utils/updateLessonProgress.ts:124-148 | The in-place course step leaves exactly the tables `MarkCourseFinished` describes. |
| Schema.WithoutPassword | drizzle/schema.ts:15-24 | The session form of a user row is the row minus its password: restoring the password gives the row back. |
| Body.ParamId | server/api/wishlist/index.post.ts:17-19 | A number or decimal string within the 32-bit `integer` range binds as `Number()` would read it. A boolean, null, missing value, fraction, non-numeral string or number outside that range does not bind. |
| Body.NumberOfNumeral | server/api/answers/index.post.ts:17 | An id sent as a decimal string is truthy and converts to the same number as the id sent as a number. |
| AuthGuards.RequireAdmin | server/utils/auth.ts:7-23 | Passes iff there is a user whose role is admin; no user gives 401; a user with another role gives 403. |
| AuthGuards.RequireTeacherOrAdmin | server/utils/auth.ts:28-44 | Passes iff the user's role is teacher or admin; no user gives 401; otherwise 403. |
| AuthGuards.RequireStudent | server/utils/auth.ts:49-65 | Passes iff the user's role is student; no user gives 401; otherwise 403. |
| AuthGuards.GetCurrentUser | server/utils/auth.ts:70-81 | No user gives 401; otherwise the context user is returned unchanged. |
| AuthGuards.NoUserIsUnauthorized | server/utils/auth.ts:10-15 | Every guard answers a missing user with 401, never 403. |
| AuthGuards.NullRoleFailsEveryGuard | server/utils/auth.ts:59-64 | A user whose role is null fails all three role guards with 403. |
| AuthGuards.RoleGuardsPartition | server/utils/auth.ts:17-64 | Each role passes exactly one of requireStudent and requireTeacherOrAdmin, and requireAdmin admits only users requireTeacherOrAdmin admits. |
| WishlistAdd.Wishlist.Add | server/api/wishlist/index.post.ts:3-46 | A falsy courseId gives 400. A value the database cannot bind to the integer column (a boolean, a fraction, a non-numeral string, a number outside the 32-bit range) gives 500, and an unknown course gives 404; all three leave the wishlist unchanged. A known course always succeeds: an existing pair is returned and nothing is inserted, otherwise exactly that pair is appended. Afterwards the pair occurs exactly once, success is true, and no pair is ever duplicated. |
| TeacherApplications.ApplicationTable.Submit | server/api/teacher-applications/index.post.ts:9-50 | Checks run in order: no user gives 401, a non-student role gives 403, a motivation under 10 UTF-16 code units gives 400, and an existing application gives 409. A student with a valid body and no application always succeeds, inserting exactly one application with the caller's id and the next id. There is never more than one application per user. |
| Categories.CategoryTable.Create | server/api/categories/index.post.ts:9-42 | `requireAdmin` runs first. Then an empty name or bad image URL gives 400, and a taken name gives 409 with no insert. An admin with a valid body and an unused name always succeeds: exactly one category with the given fields is inserted and returned with success true. Names stay unique. |
| Strings.Utf16Length | server/api/auth/register.post.ts:5 | JavaScript's `length` lies between the number of characters and twice that, and equals it when every character is in the Basic Multilingual Plane. |
| Register.Accounts.Register | server/api/auth/register.post.ts:1-44 | An invalid body gives 400 (a password under 6 UTF-16 code units is invalid) and a taken username gives 409; a taken e-mail fails at the table with 500, after the serial default has drawn an id, so the next id advances while the users and session stay as they were. A valid body with a free username and e-mail always succeeds, inserting exactly one user whose stored password is `hash(password)` and whose role is the default student; the session becomes that row without its password. The 400 and 409 failures change nothing. |
| Answers.AnswerTable.Create | server/api/answers/index.post.ts:3-24 | A falsy questionId, empty or missing text, or a non-boolean `correct` gives 400; a questionId that is not a number, or not a 32-bit integer, gives 500 and changes nothing. One that names no question gives 500 after the serial default has drawn an id: no row is added but the next id advances. An accepted body naming an existing question always succeeds: one row with `Number(questionId)` and the given text and flag is inserted and returned. |
| Answers.FalseIsAccepted | server/api/answers/index.post.ts:7-12 | `correct: false` is accepted. A questionId of 0 or "", or a non-boolean `correct`, is rejected. |
| Questions.QuestionTable.Create | server/api/questions/index.post.ts:3-23 | A falsy testId or empty or missing text gives 400; a testId that is not a number, or not a 32-bit integer, gives 500 and changes nothing. One that names no test gives 500 after the serial default has drawn an id: no row is added but the next id advances. An accepted body naming an existing test always succeeds: one row with `Number(testId)` and the text is inserted and returned unchanged. |
| Ranking.InsertDesc | server/api/top-instructors.get.ts:45 | Inserting into a non-increasing sequence keeps it non-increasing and adds exactly the element. |
| Ranking.SortDesc | server/api/top-instructors.get.ts:45 | The result is in non-increasing key order and is a permutation of the input. |
| Ranking.Take | server/api/top-instructors.get.ts:46 | `slice(0, n)`: the prefix of length min(n, length). |
| Ranking.TopIsSorted | server/api/top-instructors.get.ts:45-46 | The first n after sorting are in non-increasing key order, are drawn from the input (as a multiset), and number min(n, length). |
| Ranking.TopIsBest | server/api/top-instructors.get.ts:45-46 | No element left out of the first n after sorting has a greater key than one kept, counting duplicates: any element with more copies in the input than in the top n has a key no greater than every kept element's. |
| TopInstructors.TotalStudentsAppend | server/api/top-instructors.get.ts:23-26 | The student total over a list of courses is additive over concatenation. |
| TopInstructors.TotalStudentsBounds | server/api/top-instructors.get.ts:23-26 | Each course's participation count is included in the instructor's total. |
| TopInstructors.ExpertisePlural | server/api/top-instructors.get.ts:29-32 | 0 courses gives "Новый преподаватель", 1 gives "1 курс", 2-4 give "N курса" and 5 or more give "N курсов". |
| TopInstructors.ExpertiseNamesCount | server/api/top-instructors.get.ts:29-32 | For at least one course, the leading number of the expertise line reads back as the course count. |
| TopInstructors.WithCourses | server/api/top-instructors.get.ts:44 | Exactly the instructors with at least one course are kept, drawn from the input. |
| TopInstructors.EligibleFromRows | server/api/top-instructors.get.ts:21-44 | Every eligible card is the card of an input teacher and has at least one course. |
| TopInstructors.TopInstructorsSpec | server/api/top-instructors.get.ts:21-51 | `total` equals the returned length, which is min(8, eligible count). The entries are a sub-multiset of the eligible cards, and each is an input teacher's card with at least one course. Entries come in non-increasing student count, and no eligible teacher left out has more students than one included. |
| PopularCourses.CategoryName | server/api/popular-courses.get.ts:35 | A missing or empty category name becomes "Без категории"; otherwise the name is kept. |
| PopularCourses.CreatorName | server/api/popular-courses.get.ts:36-38 | With a creator: first name, one space, last name. Without one: "Неизвестный преподаватель". |
| PopularCourses.AllStats | server/api/popular-courses.get.ts:27-39 | One card per course, in input order. |
| PopularCourses.PopularFromRows | server/api/popular-courses.get.ts:27-46 | Every returned entry is the card of an input course. |
| PopularCourses.PopularBeatsRest | server/api/popular-courses.get.ts:40-41 | A course whose card was left out has no more students than any returned course. |
| PopularCourses.PopularTotal | server/api/popular-courses.get.ts:40-45 | `total` equals the returned length, which is min(6, course count). |
| PopularCourses.PopularOrdered | server/api/popular-courses.get.ts:40 | Returned courses come in non-increasing student count. |
| PopularCourses.PopularCoursesSpec | server/api/popular-courses.get.ts:27-46 | `total` equals the returned length, min(6, course count). The entries are a sub-multiset of the course cards; each is the card of an input course, keeping its id, title, description and creator id, with students equal to its participation count. The order is non-increasing, and no course left out has more students than one included. |
| Strings.SplitLastPiece | server/api/storage/upload.post.ts:48-51 | `split('.')` gives more than one piece iff the name contains a dot, and then the last piece is the text after the last dot. |
| Upload.Validate | server/api/storage/upload.post.ts:11-43 | Checks run in order form, file part, type, size, with their 400 errors. The type must be jpeg, png or gif, and a missing type fails. Exactly 2 MiB passes. The accepted part is the first part named "file". |
| Upload.Extension | server/api/storage/upload.post.ts:45-52 | With a dot in the file name, the extension is the text after the last dot; otherwise it is "jpg". It never contains a dot. |
| Upload.Upload | server/api/storage/upload.post.ts:10-61 | Fails with Validate's error. Otherwise the stored name is stamp + "." + extension, the URL is "/uploads/" + name, and the stored bytes are the part's. |
| Upload.ExtensionAfterLastDot | server/api/storage/upload.post.ts:46-52 | A name ending in "." + ext, where ext has no dot, yields ext. |
| Upload.SizeBoundary | server/api/storage/upload.post.ts:37-43 | For an allowed first file part, validation succeeds exactly when it holds at most 2097152 bytes; a larger one gives "File size exceeds 2MB limit". |
| Upload.Storage.Handle | server/api/storage/upload.post.ts:10-62 | Nothing is written when any check fails. Otherwise exactly one file is written under the generated name and its URL is returned. |
| ApiAuth.FindUser | server/middleware/01.auth.ts:17-19 | The user found has the session's id; none is found iff no row has that id. |
| ApiAuth.PathGate | server/middleware/01.auth.ts:11-14 | The three public API paths and every non-API path need no session. The public list is matched exactly: any public path extended by a non-empty suffix needs one. |
| ApiAuth.Request.Authenticate | server/middleware/01.auth.ts:9-37 | Paths that need no auth change nothing. A missing session or an unknown user id gives 401 and changes nothing. When auth is needed, a session exists and its user is found, the middleware passes; the session becomes the row without its password and the context user the full row. |
| AuthGlobal.AuthGlobal | middleware/auth.global.ts:1-12 | Logged in on /login or /register redirects to "/". Logged out anywhere else redirects to /login. Otherwise it proceeds, and it never aborts. |
| AuthGlobal.RedirectSettles | middleware/auth.global.ts:3-11 | A redirect never targets the current path, and its target proceeds, so there are no redirect loops. |
| AdminGlobal.AdminGlobal | middleware/admin.global.ts:1-17 | Paths outside /admin proceed. Under /admin: no user redirects to /login, a non-admin gives 403, an admin proceeds. |
| AdminGlobal.AgreesWithRequireAdmin | middleware/admin.global.ts:5-16 | Under /admin the page guard admits exactly the users requireAdmin admits, redirects exactly where the server answers 401, and aborts exactly where it answers 403. |
| TeacherGlobal.TeacherGlobal | middleware/teacher.global.ts:1-41 | Without a user, /instructors*, /app/apply-teacher, /app/my-courses and /app/settings redirect to /login and other paths proceed. With a user, only /app/my-courses can refuse, with 403 for roles other than teacher and admin. |
| TeacherGlobal.LoginOnlyPages | middleware/teacher.global.ts:5-30 | The instructor pages, the application page and the settings page admit every logged-in user and redirect visitors. |
| TeacherGlobal.MyCoursesAgreesWithRequireTeacherOrAdmin | middleware/teacher.global.ts:26-38 | On my-courses the page guard admits exactly the users requireTeacherOrAdmin admits. |
| ProfileAccess.ProfileAccess | middleware/profile-access.global.ts:1-39 | Without a user, the settings and editor paths redirect to /login. Teachers and admins always proceed. Other roles get the course-editor 403 on paths containing create-course or edit-course, then the test-editor 403 on paths containing create-test or edit-test. |
| ProfileAccess.NestedEditorPath | middleware/profile-access.global.ts:13-24 | "edit-course" anywhere in a path guards it: a user who may not edit gets the course-editor 403 and a visitor is redirected to /login. |
| CourseAccess.TestIdFrom | middleware/course-access.global.ts:34-36 | The result is the id of the leftmost match of "/tests/" followed by a digit at or after a position. None iff there is no match there. |
| CourseAccess.TestId | middleware/course-access.global.ts:34-36 | `match(/\/tests\/(\d+)/)` followed by `parseInt`: the id after the leftmost "/tests/" that a digit follows, or none when there is no such place. |
| CourseAccess.MatchImpliesSegment | middleware/course-access.global.ts:33-35 | A match implies the path contains "/tests/". |
| CourseAccess.TestIdOfTestPage | middleware/course-access.global.ts:34-36 | "/tests/" + numeral of n + a rest not starting with a digit yields n. |
| CourseAccess.CourseAccess | middleware/course-access.global.ts:1-49 | Without a user: redirect to /login on a path containing both "/courses/" and "/modules/", otherwise proceed; the tests rule does nothing. With a user: 403 iff the path has a test id and the access check for it fails. |
| CourseAccess.ModulesPageNotDenied | middleware/course-access.global.ts:5-48 | A logged-in user on a modules page is never redirected. A refusal happens only because the path also names a test whose access check failed. |

## Left out

- Test attempts, scoring and attempt limits: the modelled code has none, and the seed script's random data is not a modelled state.
- Columns the handlers use but the schema file does not declare (categories, wishlist, teacher applications, images): each handler's table is an abstract record of the fields it uses.
- Concurrency and atomicity: every handler is modelled as one sequential step. The read-then-write course-progress step and the check-then-insert handlers are racy under concurrent requests, and the model claims nothing about that.
- Progress.ProgressStore.UpdateLessonProgress: the three errors are distinct values, not the message strings. The success response `{ success, message }` is not returned.
- Progress.Db: the lessons→modules foreign key is not assumed, so "Module not found" stays reachable as in the code.
- Foreign calls are parameters. `hashPassword` is `hash`, and zod's e-mail and URL checks are `isEmail` and `isUrl`. The client's `$fetch` access check is `checkAccess`. The `Date.now()`/`Math.random()` part of upload names is `stamp`.
- Session storage (`requireUserSession`, `setUserSession`) is a field of the request object; cookie sealing is not modelled.
- The file system behind the upload storage is a map from name to bytes; directories and I/O failures are not modelled.
- Errors the database raises (foreign-key or unique violations, a non-integer id) are all the generic 500 error; the driver's exact messages are not modelled.
- Body.ParamId: Postgres's own reading of signed or padded numerals is not modelled, and a JSON number with a fractional part is one value, `Fraction`, whose digits are not kept.
- Body.ToNumber: only plain decimal strings convert. Signs, whitespace, decimal points, exponents and hex are not modelled, and non-string `text` values are not represented. A fractional number converts to no integer.
- Serial ids: a sequence that passes 2^31 - 1 stops the insert in Postgres; the tables' next id is unbounded here.
- CourseAccess.TestId: `parseInt` is exact; the loss of precision above 2^53 is not modelled.
- TopInstructors.TopInstructorsSpec: ties keep input order, because the sort is stable, but the contract does not state this.
- PopularCourses.PopularCoursesSpec: the same; stability under ties is not stated.
- TopInstructors.TopInstructors: the query's `role = 'teacher'` filter runs in the database. Its result is the input.
- WishlistAdd.Wishlist.Add: the context user is taken as present, because the server auth middleware has set it on every /api path that reaches the handler.
- A request without a body: `readBody` then yields `undefined`, and the handlers that destructure it (wishlist, answers, questions) fail with a 500. Every body datatype here holds an object, so that input is not represented; the zod-validated handlers reject it with 400 like any invalid body.
- Progress.EnrolmentOf and Progress.CourseProgressOf: the `.limit(1)` lookups have no ORDER BY, so the database may return any matching row; the model takes the first in table order. This matters only when a pair has duplicate rows, which no key forbids.
- Progress.DuplicatePairsAllowed: which of two duplicate course-progress rows is finished follows the first-in-table-order reading above; the database may finish either.
- Progress.CascadeIdempotent: holds under the same reading. With duplicate course-progress rows and an arbitrary row returned by each lookup, a second call could finish a different duplicate.
- The client wishlist store and the modal composable are UI state and are not part of this model.
