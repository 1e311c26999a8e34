/** Lesson completion and its cascade to module and course progress
    (`updateLessonProgress`). `Cascade` is the specification: the tables before
    the call, and the tables after it or the error it raises. `ProgressStore`
    holds the tables and changes them in place, step by step, as the source does. */
module Progress {
  import opened Common
  import opened Schema

  datatype ProgressError = LessonNotFound | ModuleNotFound | NotEnrolled

  /** The tables the cascade reads and writes. Lesson and module progress are keyed
      by their composite primary keys (participationId, lessonId) and
      (participationId, moduleId), so each key has at most one row; participations
      and course progress are keyed by a serial id only and are kept in table order. */
  datatype Db = Db(
    courses: set<int>,
    lessonModule: map<int, int>,
    moduleCourse: map<int, int>,
    participations: seq<Participation>,
    lessonProgress: map<(int, int), bool>,
    moduleProgress: map<(int, int), bool>,
    courseProgress: seq<CourseProgressRow>,
    nextCourseProgressId: int)

  predicate IsParticipationId(ps: seq<Participation>, id: int) {
    exists p :: p in ps && p.id == id
  }

  /** Keys and foreign keys the schema declares on the tables above. */
  predicate ValidDb(db: Db) {
    && (forall i, j :: 0 <= i < j < |db.participations| ==>
          db.participations[i].id != db.participations[j].id)
    && (forall m :: m in db.moduleCourse ==> db.moduleCourse[m] in db.courses)
    && (forall k :: k in db.lessonProgress ==>
          k.1 in db.lessonModule && IsParticipationId(db.participations, k.0))
    && (forall k :: k in db.moduleProgress ==>
          k.1 in db.moduleCourse && IsParticipationId(db.participations, k.0))
    && (forall i :: 0 <= i < |db.courseProgress| ==>
          && db.courseProgress[i].courseId in db.courses
          && IsParticipationId(db.participations, db.courseProgress[i].participationId)
          && db.courseProgress[i].id < db.nextCourseProgressId)
    && (forall i, j :: 0 <= i < j < |db.courseProgress| ==>
          db.courseProgress[i].id != db.courseProgress[j].id)
  }

  /** The participation the lookup at lines 43-52 finds: the first row for the pair. */
  function EnrolmentOf(ps: seq<Participation>, userId: int, courseId: int): Option<nat> {
    FirstIndex(ps, (p: Participation) => p.userId == userId && p.courseId == courseId)
  }

  /** The course-progress row the lookup at lines 124-133 finds, if any. */
  function CourseProgressOf(rows: seq<CourseProgressRow>, courseId: int, participationId: int)
    : Option<nat>
  {
    FirstIndex(rows, (r: CourseProgressRow) =>
      r.courseId == courseId && r.participationId == participationId)
  }

  function LessonsOf(lessonModule: map<int, int>, moduleId: int): set<int> {
    set l | l in lessonModule && lessonModule[l] == moduleId
  }

  /** The lessons of a module with a finished progress row for the participation:
      what the count at lines 77-87 counts. */
  function FinishedLessonsOf(
    lessonModule: map<int, int>, lessonProgress: map<(int, int), bool>,
    participationId: int, moduleId: int): set<int>
  {
    set l | l in lessonModule && lessonModule[l] == moduleId
      && (participationId, l) in lessonProgress && lessonProgress[(participationId, l)]
  }

  function ModulesOf(moduleCourse: map<int, int>, courseId: int): set<int> {
    set m | m in moduleCourse && moduleCourse[m] == courseId
  }

  function FinishedModulesOf(
    moduleCourse: map<int, int>, moduleProgress: map<(int, int), bool>,
    participationId: int, courseId: int): set<int>
  {
    set m | m in moduleCourse && moduleCourse[m] == courseId
      && (participationId, m) in moduleProgress && moduleProgress[(participationId, m)]
  }

  /** Lines 124-148: set the first course-progress row of the pair to finished,
      or insert a finished row when there is none. */
  function MarkCourseFinished(db: Db, courseId: int, participationId: int): Db {
    match CourseProgressOf(db.courseProgress, courseId, participationId)
    case Some(i) =>
      db.(courseProgress := db.courseProgress[i := db.courseProgress[i].(finished := true)])
    case None =>
      db.(courseProgress := db.courseProgress
            + [CourseProgressRow(db.nextCourseProgressId, courseId, participationId, true)],
          nextCourseProgressId := db.nextCourseProgressId + 1)
  }

  /** The whole of `updateLessonProgress(lessonId, userId)` on the tables `db`. */
  function Cascade(db: Db, lessonId: int, userId: int): Result<Db, ProgressError> {
    if lessonId !in db.lessonModule then Failure(LessonNotFound)
    else
      var moduleId := db.lessonModule[lessonId];
      if moduleId !in db.moduleCourse then Failure(ModuleNotFound)
      else
        var courseId := db.moduleCourse[moduleId];
        match EnrolmentOf(db.participations, userId, courseId)
        case None => Failure(NotEnrolled)
        case Some(i) =>
          var pid := db.participations[i].id;
          var db1 := db.(lessonProgress := db.lessonProgress[(pid, lessonId) := true]);
          if |FinishedLessonsOf(db1.lessonModule, db1.lessonProgress, pid, moduleId)|
             != |LessonsOf(db1.lessonModule, moduleId)|
          then Success(db1)
          else
            var db2 := db1.(moduleProgress := db1.moduleProgress[(pid, moduleId) := true]);
            if |FinishedModulesOf(db2.moduleCourse, db2.moduleProgress, pid, courseId)|
               != |ModulesOf(db2.moduleCourse, courseId)|
            then Success(db2)
            else Success(MarkCourseFinished(db2, courseId, pid))
  }

  // ---------------------------------------------------------------------------
  // Properties of the cascade

  /** The participation a successful call writes under. */
  function ResolvedParticipation(db: Db, lessonId: int, userId: int): (pid: Option<int>)
    ensures pid.Some? <==> Cascade(db, lessonId, userId).Success?
  {
    if lessonId !in db.lessonModule || db.lessonModule[lessonId] !in db.moduleCourse then None
    else
      var courseId := db.moduleCourse[db.lessonModule[lessonId]];
      match EnrolmentOf(db.participations, userId, courseId)
      case None => None
      case Some(i) => Some(db.participations[i].id)
  }

  /** Each missing link of lesson -> module -> course -> participation raises its own
      error, and a failing call writes nothing (every check precedes the first write). */
  lemma CascadeErrors(db: Db, lessonId: int, userId: int)
    ensures lessonId !in db.lessonModule ==>
      Cascade(db, lessonId, userId) == Failure(LessonNotFound)
    ensures lessonId in db.lessonModule && db.lessonModule[lessonId] !in db.moduleCourse ==>
      Cascade(db, lessonId, userId) == Failure(ModuleNotFound)
    ensures lessonId in db.lessonModule && db.lessonModule[lessonId] in db.moduleCourse ==>
      var courseId := db.moduleCourse[db.lessonModule[lessonId]];
      (Cascade(db, lessonId, userId) == Failure(NotEnrolled) <==>
       forall p :: p in db.participations ==> !(p.userId == userId && p.courseId == courseId))
  {
    if lessonId in db.lessonModule && db.lessonModule[lessonId] in db.moduleCourse {
      var courseId := db.moduleCourse[db.lessonModule[lessonId]];
      var ps := db.participations;
      if EnrolmentOf(ps, userId, courseId).Some? {
        var i := EnrolmentOf(ps, userId, courseId).value;
        assert ps[i] in ps && ps[i].userId == userId && ps[i].courseId == courseId;
      } else {
        forall p | p in ps ensures !(p.userId == userId && p.courseId == courseId) {
          var k :| 0 <= k < |ps| && ps[k] == p;
        }
      }
    }
  }

  /** A subset of a finite set has the same size exactly when it is the whole set. */
  lemma SubsetSameSize<T>(a: set<T>, b: set<T>)
    requires a <= b
    ensures |a| == |b| <==> a == b
  {
    if a != b {
      assert !(b <= a);
      var x :| x in b && x !in a;
      assert b * a == a;
      assert x in b - a;
      assert |b - a| == |b| - |a|;
    }
  }

  /** All lessons of the module have a finished row for the participation. */
  predicate AllLessonsFinished(
    lessonModule: map<int, int>, lessonProgress: map<(int, int), bool>,
    participationId: int, moduleId: int)
  {
    forall l :: l in lessonModule && lessonModule[l] == moduleId ==>
      (participationId, l) in lessonProgress && lessonProgress[(participationId, l)]
  }

  /** All modules of the course have a finished row for the participation. */
  predicate AllModulesFinished(
    moduleCourse: map<int, int>, moduleProgress: map<(int, int), bool>,
    participationId: int, courseId: int)
  {
    forall m :: m in moduleCourse && moduleCourse[m] == courseId ==>
      (participationId, m) in moduleProgress && moduleProgress[(participationId, m)]
  }

  /** The count comparison at line 90 holds exactly when every lesson of the module is finished. */
  lemma LessonCountsMatch(
    lessonModule: map<int, int>, lessonProgress: map<(int, int), bool>,
    participationId: int, moduleId: int)
    ensures |FinishedLessonsOf(lessonModule, lessonProgress, participationId, moduleId)|
            == |LessonsOf(lessonModule, moduleId)|
        <==> AllLessonsFinished(lessonModule, lessonProgress, participationId, moduleId)
  {
    var done := FinishedLessonsOf(lessonModule, lessonProgress, participationId, moduleId);
    var all := LessonsOf(lessonModule, moduleId);
    SubsetSameSize(done, all);
    if AllLessonsFinished(lessonModule, lessonProgress, participationId, moduleId) {
      forall x | x in all ensures x in done {}
      assert all == done;
    }
    if |done| == |all| {
      forall x | x in lessonModule && lessonModule[x] == moduleId
        ensures (participationId, x) in lessonProgress && lessonProgress[(participationId, x)]
      {
        assert x in all;
      }
    }
  }

  /** The count comparison at line 122 holds exactly when every module of the course is finished. */
  lemma ModuleCountsMatch(
    moduleCourse: map<int, int>, moduleProgress: map<(int, int), bool>,
    participationId: int, courseId: int)
    ensures |FinishedModulesOf(moduleCourse, moduleProgress, participationId, courseId)|
            == |ModulesOf(moduleCourse, courseId)|
        <==> AllModulesFinished(moduleCourse, moduleProgress, participationId, courseId)
  {
    var done := FinishedModulesOf(moduleCourse, moduleProgress, participationId, courseId);
    var all := ModulesOf(moduleCourse, courseId);
    SubsetSameSize(done, all);
    if AllModulesFinished(moduleCourse, moduleProgress, participationId, courseId) {
      forall x | x in all ensures x in done {}
      assert all == done;
    }
    if |done| == |all| {
      forall x | x in moduleCourse && moduleCourse[x] == courseId
        ensures (participationId, x) in moduleProgress && moduleProgress[(participationId, x)]
      {
        assert x in all;
      }
    }
  }

  /** A successful call, step by step: the lesson row of (participation, lesson) is
      finished; the module row is set finished exactly when all lessons of the module
      are then finished, and is untouched otherwise; and only when, in addition, all
      modules of the course are finished is the course progress marked. */
  lemma CascadeSteps(db: Db, lessonId: int, userId: int)
    requires Cascade(db, lessonId, userId).Success?
    ensures
      var db' := Cascade(db, lessonId, userId).value;
      var pid := ResolvedParticipation(db, lessonId, userId).value;
      var moduleId := db.lessonModule[lessonId];
      var courseId := db.moduleCourse[moduleId];
      var lessonsDone := AllLessonsFinished(db'.lessonModule, db'.lessonProgress, pid, moduleId);
      var modulesDone := AllModulesFinished(db'.moduleCourse, db'.moduleProgress, pid, courseId);
      && db'.lessonProgress == db.lessonProgress[(pid, lessonId) := true]
      && db'.moduleProgress ==
           (if lessonsDone then db.moduleProgress[(pid, moduleId) := true] else db.moduleProgress)
      && (if lessonsDone && modulesDone
          then db' == MarkCourseFinished(db.(lessonProgress := db'.lessonProgress,
                                              moduleProgress := db'.moduleProgress),
                                         courseId, pid)
          else db'.courseProgress == db.courseProgress
               && db'.nextCourseProgressId == db.nextCourseProgressId)
      && db'.courses == db.courses && db'.lessonModule == db.lessonModule
      && db'.moduleCourse == db.moduleCourse && db'.participations == db.participations
  {
    var moduleId := db.lessonModule[lessonId];
    var courseId := db.moduleCourse[moduleId];
    var pid := ResolvedParticipation(db, lessonId, userId).value;
    var lp := db.lessonProgress[(pid, lessonId) := true];
    var mp := db.moduleProgress[(pid, moduleId) := true];
    LessonCountsMatch(db.lessonModule, lp, pid, moduleId);
    ModuleCountsMatch(db.moduleCourse, mp, pid, courseId);
    var db' := Cascade(db, lessonId, userId).value;
    if !AllLessonsFinished(db.lessonModule, lp, pid, moduleId) {
      assert db'.moduleProgress == db.moduleProgress;
      assert !AllLessonsFinished(db'.lessonModule, db'.lessonProgress, pid, moduleId);
    }
  }

  /** The first course-progress row of the pair, or the row inserted for it, is
      finished afterwards; every other course-progress row is unchanged. */
  lemma MarkCourseFinishedEffect(db: Db, courseId: int, pid: int)
    ensures
      var rows := MarkCourseFinished(db, courseId, pid).courseProgress;
      var i := CourseProgressOf(rows, courseId, pid);
      && i.Some? && rows[i.value].finished
      && rows[i.value] == (if i.value < |db.courseProgress| then db.courseProgress[i.value].(finished := true)
                           else CourseProgressRow(db.nextCourseProgressId, courseId, pid, true))
      && |rows| == |db.courseProgress| + (if CourseProgressOf(db.courseProgress, courseId, pid).Some? then 0 else 1)
      && forall j :: 0 <= j < |db.courseProgress| && j != i.value ==> rows[j] == db.courseProgress[j]
  {
    var old_ := db.courseProgress;
    var rows := MarkCourseFinished(db, courseId, pid).courseProgress;
    match CourseProgressOf(old_, courseId, pid)
    case Some(i) =>
      FirstIndexAt(rows, (r: CourseProgressRow) => r.courseId == courseId && r.participationId == pid, i);
    case None =>
      FirstIndexAt(rows, (r: CourseProgressRow) => r.courseId == courseId && r.participationId == pid, |old_|);
  }

  /** `FirstIndex` is determined by its contract: the first position that matches. */
  lemma FirstIndexAt<T>(s: seq<T>, p: T -> bool, i: nat)
    requires i < |s| && p(s[i]) && forall j :: 0 <= j < i ==> !p(s[j])
    ensures FirstIndex(s, p) == Some(i)
  {
    var r := FirstIndex(s, p);
    assert r.Some?;
    assert !(r.value < i);
  }

  /** Marking the course twice leaves the same tables as marking it once: the second
      time the row found is the one just marked (or just inserted). */
  lemma MarkCourseFinishedIdempotent(db: Db, courseId: int, pid: int)
    ensures MarkCourseFinished(MarkCourseFinished(db, courseId, pid), courseId, pid)
            == MarkCourseFinished(db, courseId, pid)
  {
    MarkCourseFinishedEffect(db, courseId, pid);
    var db1 := MarkCourseFinished(db, courseId, pid);
    var i := CourseProgressOf(db1.courseProgress, courseId, pid).value;
    assert db1.courseProgress[i := db1.courseProgress[i].(finished := true)] == db1.courseProgress;
  }

  /** No call turns a finished flag back to unfinished or removes a row, and every row
      it adds or changes belongs to the resolved participation. */
  lemma CascadeOnlyFinishes(db: Db, lessonId: int, userId: int)
    requires Cascade(db, lessonId, userId).Success?
    ensures
      var db' := Cascade(db, lessonId, userId).value;
      var pid := ResolvedParticipation(db, lessonId, userId).value;
      && (forall k :: k in db.lessonProgress ==>
            k in db'.lessonProgress && (db.lessonProgress[k] ==> db'.lessonProgress[k]))
      && (forall k :: k in db'.lessonProgress && k.0 != pid ==>
            k in db.lessonProgress && db'.lessonProgress[k] == db.lessonProgress[k])
      && (forall k :: k in db.moduleProgress ==>
            k in db'.moduleProgress && (db.moduleProgress[k] ==> db'.moduleProgress[k]))
      && (forall k :: k in db'.moduleProgress && k.0 != pid ==>
            k in db.moduleProgress && db'.moduleProgress[k] == db.moduleProgress[k])
      && |db.courseProgress| <= |db'.courseProgress|
      && (forall j :: 0 <= j < |db.courseProgress| ==>
            var r, r' := db.courseProgress[j], db'.courseProgress[j];
            r' == r || (r' == r.(finished := true) && r.participationId == pid))
      && (forall j :: |db.courseProgress| <= j < |db'.courseProgress| ==>
            db'.courseProgress[j].participationId == pid && db'.courseProgress[j].finished)
  {
    CascadeSteps(db, lessonId, userId);
    var db' := Cascade(db, lessonId, userId).value;
    var pid := ResolvedParticipation(db, lessonId, userId).value;
    var moduleId := db.lessonModule[lessonId];
    var courseId := db.moduleCourse[moduleId];
    if db'.courseProgress != db.courseProgress {
      var mid := db.(lessonProgress := db'.lessonProgress, moduleProgress := db'.moduleProgress);
      MarkCourseFinishedEffect(mid, courseId, pid);
    }
  }

  /** A module without lessons never gets its progress changed by the cascade: the only
      module it marks holds the lesson that was just finished. */
  lemma EmptyModuleNeverMarked(db: Db, lessonId: int, userId: int, moduleId: int, pid: int)
    requires Cascade(db, lessonId, userId).Success?
    requires LessonsOf(db.lessonModule, moduleId) == {}
    ensures (pid, moduleId) in Cascade(db, lessonId, userId).value.moduleProgress
        <==> (pid, moduleId) in db.moduleProgress
    ensures (pid, moduleId) in db.moduleProgress ==>
      Cascade(db, lessonId, userId).value.moduleProgress[(pid, moduleId)]
        == db.moduleProgress[(pid, moduleId)]
  {
    CascadeSteps(db, lessonId, userId);
    assert lessonId in LessonsOf(db.lessonModule, db.lessonModule[lessonId]);
  }

  /** Neither participations nor course progress are unique per pair: tables with
      two enrolments of one user in one course and two progress rows for them meet
      every key, and the course step then finishes only the first of the two rows. */
  lemma DuplicatePairsAllowed()
    ensures
      var db := Db({1}, map[], map[], [Participation(1, 5, 1), Participation(2, 5, 1)], map[], map[],
                   [CourseProgressRow(1, 1, 1, false), CourseProgressRow(2, 1, 1, false)], 3);
      && ValidDb(db)
      && MarkCourseFinished(db, 1, 1).courseProgress
         == [CourseProgressRow(1, 1, 1, true), CourseProgressRow(2, 1, 1, false)]
  {
    var ps := [Participation(1, 5, 1), Participation(2, 5, 1)];
    assert ps[0] in ps;
  }

  /** The three outcomes of a call that resolves its participation, one per branch
      of the count comparisons. */
  lemma CascadeBranches(db: Db, lessonId: int, userId: int, moduleId: int, courseId: int, i: nat)
    requires lessonId in db.lessonModule && db.lessonModule[lessonId] == moduleId
    requires moduleId in db.moduleCourse && db.moduleCourse[moduleId] == courseId
    requires EnrolmentOf(db.participations, userId, courseId) == Some(i)
    ensures
      var pid := db.participations[i].id;
      var db1 := db.(lessonProgress := db.lessonProgress[(pid, lessonId) := true]);
      var db2 := db1.(moduleProgress := db1.moduleProgress[(pid, moduleId) := true]);
      var lessonsDone := |FinishedLessonsOf(db1.lessonModule, db1.lessonProgress, pid, moduleId)|
                         == |LessonsOf(db1.lessonModule, moduleId)|;
      var modulesDone := |FinishedModulesOf(db2.moduleCourse, db2.moduleProgress, pid, courseId)|
                         == |ModulesOf(db2.moduleCourse, courseId)|;
      && (!lessonsDone ==> Cascade(db, lessonId, userId) == Success(db1))
      && (lessonsDone && !modulesDone ==> Cascade(db, lessonId, userId) == Success(db2))
      && (lessonsDone && modulesDone ==>
            Cascade(db, lessonId, userId) == Success(MarkCourseFinished(db2, courseId, pid)))
  {
  }

  /** Once the lesson row of the participation is finished, the lesson step writes
      nothing new; if the module is not complete, the call returns the tables as
      they are. */
  lemma RepeatAfterLessonStep(db: Db, lessonId: int, userId: int, moduleId: int, courseId: int, i: nat)
    requires lessonId in db.lessonModule && db.lessonModule[lessonId] == moduleId
    requires moduleId in db.moduleCourse && db.moduleCourse[moduleId] == courseId
    requires EnrolmentOf(db.participations, userId, courseId) == Some(i)
    requires var pid := db.participations[i].id;
      (pid, lessonId) in db.lessonProgress && db.lessonProgress[(pid, lessonId)]
    requires var pid := db.participations[i].id;
      |FinishedLessonsOf(db.lessonModule, db.lessonProgress, pid, moduleId)|
        != |LessonsOf(db.lessonModule, moduleId)|
    ensures Cascade(db, lessonId, userId) == Success(db)
  {
    var pid := db.participations[i].id;
    CascadeBranches(db, lessonId, userId, moduleId, courseId, i);
    assert db.(lessonProgress := db.lessonProgress[(pid, lessonId) := true]) == db;
  }

  /** Once the lesson and module rows are finished, neither step writes anything new;
      if the course is not complete, the call returns the tables as they are, and
      otherwise it marks the course. */
  lemma RepeatAfterModuleStep(db: Db, lessonId: int, userId: int, moduleId: int, courseId: int, i: nat)
    requires lessonId in db.lessonModule && db.lessonModule[lessonId] == moduleId
    requires moduleId in db.moduleCourse && db.moduleCourse[moduleId] == courseId
    requires EnrolmentOf(db.participations, userId, courseId) == Some(i)
    requires var pid := db.participations[i].id;
      && (pid, lessonId) in db.lessonProgress && db.lessonProgress[(pid, lessonId)]
      && (pid, moduleId) in db.moduleProgress && db.moduleProgress[(pid, moduleId)]
    requires var pid := db.participations[i].id;
      |FinishedLessonsOf(db.lessonModule, db.lessonProgress, pid, moduleId)|
        == |LessonsOf(db.lessonModule, moduleId)|
    ensures var pid := db.participations[i].id;
      Cascade(db, lessonId, userId)
        == if |FinishedModulesOf(db.moduleCourse, db.moduleProgress, pid, courseId)|
              == |ModulesOf(db.moduleCourse, courseId)|
           then Success(MarkCourseFinished(db, courseId, pid))
           else Success(db)
  {
    var pid := db.participations[i].id;
    CascadeBranches(db, lessonId, userId, moduleId, courseId, i);
    var db1 := db.(lessonProgress := db.lessonProgress[(pid, lessonId) := true]);
    assert db1 == db;
    assert db1.(moduleProgress := db1.moduleProgress[(pid, moduleId) := true]) == db;
  }

  /** Running the call twice in a row leaves the tables as running it once. */
  lemma CascadeIdempotent(db: Db, lessonId: int, userId: int)
    ensures Cascade(db, lessonId, userId).Success? ==>
      Cascade(Cascade(db, lessonId, userId).value, lessonId, userId)
        == Cascade(db, lessonId, userId)
  {
    if Cascade(db, lessonId, userId).Success? {
      var moduleId := db.lessonModule[lessonId];
      var courseId := db.moduleCourse[moduleId];
      var i := EnrolmentOf(db.participations, userId, courseId).value;
      var pid := db.participations[i].id;
      var db1 := db.(lessonProgress := db.lessonProgress[(pid, lessonId) := true]);
      var db2 := db1.(moduleProgress := db1.moduleProgress[(pid, moduleId) := true]);
      CascadeBranches(db, lessonId, userId, moduleId, courseId, i);
      if |FinishedLessonsOf(db1.lessonModule, db1.lessonProgress, pid, moduleId)|
         != |LessonsOf(db1.lessonModule, moduleId)| {
        RepeatAfterLessonStep(db1, lessonId, userId, moduleId, courseId, i);
      } else if |FinishedModulesOf(db2.moduleCourse, db2.moduleProgress, pid, courseId)|
                != |ModulesOf(db2.moduleCourse, courseId)| {
        RepeatAfterModuleStep(db2, lessonId, userId, moduleId, courseId, i);
      } else {
        var db3 := MarkCourseFinished(db2, courseId, pid);
        assert db3.lessonProgress == db2.lessonProgress && db3.moduleProgress == db2.moduleProgress;
        RepeatAfterModuleStep(db3, lessonId, userId, moduleId, courseId, i);
        MarkCourseFinishedIdempotent(db2, courseId, pid);
      }
    }
  }

  /** Finishing an existing lesson under an existing participation,
      keeps the keys. */
  lemma LessonStepPreservesValid(db: Db, pid: int, lessonId: int)
    requires ValidDb(db) && lessonId in db.lessonModule && IsParticipationId(db.participations, pid)
    ensures ValidDb(db.(lessonProgress := db.lessonProgress[(pid, lessonId) := true]))
  {
  }

  /** Finishing an existing module under an existing participation keeps the keys. */
  lemma ModuleStepPreservesValid(db: Db, pid: int, moduleId: int)
    requires ValidDb(db) && moduleId in db.moduleCourse && IsParticipationId(db.participations, pid)
    ensures ValidDb(db.(moduleProgress := db.moduleProgress[(pid, moduleId) := true]))
  {
  }

  /** Marking an existing course finished under an existing participation keeps the
      keys: the inserted row takes a fresh id. */
  lemma MarkCourseFinishedPreservesValid(db: Db, courseId: int, pid: int)
    requires ValidDb(db) && courseId in db.courses && IsParticipationId(db.participations, pid)
    ensures ValidDb(MarkCourseFinished(db, courseId, pid))
  {
    var rows := db.courseProgress;
    var rows' := MarkCourseFinished(db, courseId, pid).courseProgress;
    match CourseProgressOf(rows, courseId, pid)
    case Some(i) =>
      assert forall j :: 0 <= j < |rows'| ==>
        rows'[j].id == rows[j].id && rows'[j].courseId == rows[j].courseId
        && rows'[j].participationId == rows[j].participationId;
    case None =>
      assert rows' == rows + [CourseProgressRow(db.nextCourseProgressId, courseId, pid, true)];
  }

  /** The cascade keeps the schema's keys and foreign keys. */
  lemma CascadePreservesValid(db: Db, lessonId: int, userId: int)
    requires ValidDb(db)
    ensures Cascade(db, lessonId, userId).Success? ==> ValidDb(Cascade(db, lessonId, userId).value)
  {
    if Cascade(db, lessonId, userId).Success? {
      var moduleId := db.lessonModule[lessonId];
      var courseId := db.moduleCourse[moduleId];
      var i := EnrolmentOf(db.participations, userId, courseId).value;
      CascadeBranches(db, lessonId, userId, moduleId, courseId, i);
      var pid := db.participations[i].id;
      assert db.participations[i] in db.participations;
      var db1 := db.(lessonProgress := db.lessonProgress[(pid, lessonId) := true]);
      var db2 := db1.(moduleProgress := db1.moduleProgress[(pid, moduleId) := true]);
      LessonStepPreservesValid(db, pid, lessonId);
      ModuleStepPreservesValid(db1, pid, moduleId);
      MarkCourseFinishedPreservesValid(db2, courseId, pid);
    }
  }

  // ---------------------------------------------------------------------------
  // The tables, updated in place

  class ProgressStore {
    var courses: set<int>
    var lessonModule: map<int, int>
    var moduleCourse: map<int, int>
    var participations: seq<Participation>
    var lessonProgress: map<(int, int), bool>
    var moduleProgress: map<(int, int), bool>
    var courseProgress: seq<CourseProgressRow>
    var nextCourseProgressId: int

    function Tables(): Db
      reads this
    {
      Db(courses, lessonModule, moduleCourse, participations,
         lessonProgress, moduleProgress, courseProgress, nextCourseProgressId)
    }

    ghost predicate Valid()
      reads this
    {
      ValidDb(Tables())
    }

    constructor (db: Db)
      requires ValidDb(db)
      ensures Valid() && Tables() == db
    {
      courses, lessonModule, moduleCourse, participations := db.courses, db.lessonModule, db.moduleCourse, db.participations;
      lessonProgress, moduleProgress := db.lessonProgress, db.moduleProgress;
      courseProgress, nextCourseProgressId := db.courseProgress, db.nextCourseProgressId;
    }

    /** Lines 124-148: the course-progress row of the pair is set finished, or a
        finished row is inserted. */
    method FinishCourse(courseId: int, participationId: int)
      modifies this
      ensures Tables() == MarkCourseFinished(old(Tables()), courseId, participationId)
    {
      var existing := CourseProgressOf(courseProgress, courseId, participationId);
      if existing.Some? {
        courseProgress := courseProgress[existing.value := courseProgress[existing.value].(finished := true)];
      } else {
        courseProgress := courseProgress
          + [CourseProgressRow(nextCourseProgressId, courseId, participationId, true)];
        nextCourseProgressId := nextCourseProgressId + 1;
      }
    }

    /** `updateLessonProgress(lessonId, userId)`. */
    method UpdateLessonProgress(lessonId: int, userId: int) returns (r: Outcome<ProgressError>)
      requires Valid()
      modifies this
      ensures Valid()
      ensures r.Fail? ==> Tables() == old(Tables())
      ensures Cascade(old(Tables()), lessonId, userId)
              == if r.Pass? then Success(Tables()) else Failure(r.error)
    {
      ghost var before := Tables();
      if lessonId !in lessonModule {
        return Fail(LessonNotFound);
      }
      var moduleId := lessonModule[lessonId];
      if moduleId !in moduleCourse {
        return Fail(ModuleNotFound);
      }
      var courseId := moduleCourse[moduleId];
      var enrolment := EnrolmentOf(participations, userId, courseId);
      if enrolment.None? {
        return Fail(NotEnrolled);
      }
      CascadeBranches(before, lessonId, userId, moduleId, courseId, enrolment.value);
      CascadePreservesValid(before, lessonId, userId);
      var participationId := participations[enrolment.value].id;

      lessonProgress := lessonProgress[(participationId, lessonId) := true];

      var allLessons := LessonsOf(lessonModule, moduleId);
      var completedLessons := FinishedLessonsOf(lessonModule, lessonProgress, participationId, moduleId);
      if |completedLessons| == |allLessons| {
        moduleProgress := moduleProgress[(participationId, moduleId) := true];

        var allModules := ModulesOf(moduleCourse, courseId);
        var completedModules := FinishedModulesOf(moduleCourse, moduleProgress, participationId, courseId);
        if |completedModules| == |allModules| {
          FinishCourse(courseId, participationId);
          assert Cascade(before, lessonId, userId) == Success(Tables());
        } else {
          assert Cascade(before, lessonId, userId) == Success(Tables());
        }
      } else {
        assert Cascade(before, lessonId, userId) == Success(Tables());
      }
      r := Pass;
    }
  }
}
