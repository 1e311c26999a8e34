/** `POST /api/questions` (server/api/questions/index.post.ts): validate the body by
    hand and insert one question. */
module Questions {
  import opened Common
  import opened Body

  datatype QuestionRow = QuestionRow(id: int, testId: int, text: string)

  /** The body fields the handler reads; `text` is absent or a string. */
  datatype QuestionBody = QuestionBody(testId: BodyValue, text: Option<string>)

  /** The check at line 7: a truthy testId and a non-empty text. */
  predicate BodyAccepted(body: QuestionBody) {
    Truthy(body.testId) && body.text.Some? && body.text.value != ""
  }

  const FieldsRequired := HttpError(400, "testId and text are required")

  class QuestionTable {
    /** The ids of the `tests` table, which `questions.testId` references. */
    var tests: set<int>
    var rows: seq<QuestionRow>
    var nextId: int

    ghost predicate Valid()
      reads this
    {
      && (forall q :: q in tests ==> IsInt4(q))
      && (forall i :: 0 <= i < |rows| ==> rows[i].id < nextId && rows[i].testId in tests)
      && (forall i, j :: 0 <= i < j < |rows| ==> rows[i].id != rows[j].id)
    }

    constructor (tests: set<int>)
      requires forall q :: q in tests ==> IsInt4(q)
      ensures Valid() && this.tests == tests && rows == []
    {
      this.tests, rows, nextId := tests, [], 1;
    }

    /** The handler; it returns the inserted row unchanged. */
    method Create(body: QuestionBody) returns (r: Result<QuestionRow, HttpError>)
      requires Valid()
      modifies this`rows, this`nextId
      ensures Valid()
      ensures !BodyAccepted(body) ==> r == Failure(FieldsRequired) && nextId == old(nextId)
      ensures BodyAccepted(body) && (ToNumber(body.testId).None? || !IsInt4(ToNumber(body.testId).value))
              ==> r == Failure(DatabaseError) && nextId == old(nextId)
      ensures (&& BodyAccepted(body) && ToNumber(body.testId).Some? && IsInt4(ToNumber(body.testId).value)
               && ToNumber(body.testId).value !in tests)
              ==> r == Failure(DatabaseError) && nextId == old(nextId) + 1
      ensures BodyAccepted(body) && ToNumber(body.testId).Some? && ToNumber(body.testId).value in tests
              ==> r.Success?
      ensures r.Failure? ==> rows == old(rows)
      ensures r.Success? ==>
        && BodyAccepted(body) && ToNumber(body.testId).Some?
        && r.value == QuestionRow(old(nextId), ToNumber(body.testId).value, body.text.value)
        && rows == old(rows) + [r.value] && nextId == old(nextId) + 1
    {
      if !BodyAccepted(body) {
        return Failure(FieldsRequired);
      }
      var testId := ToNumber(body.testId);
      if testId.None? || !IsInt4(testId.value) {
        // NaN or an out-of-range number: the parameter is rejected before the insert runs
        return Failure(DatabaseError);
      }
      if testId.value !in tests {
        // a foreign-key violation, raised after the serial default has drawn an id
        nextId := nextId + 1;
        return Failure(DatabaseError);
      }
      var question := QuestionRow(nextId, testId.value, body.text.value);
      rows := rows + [question];
      nextId := nextId + 1;
      r := Success(question);
    }
  }
}
