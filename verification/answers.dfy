/** `POST /api/answers` (server/api/answers/index.post.ts): validate the body by hand
    and insert one answer. */
module Answers {
  import opened Common
  import opened Body

  datatype AnswerRow = AnswerRow(id: int, questionId: int, text: string, correct: bool)

  /** The body fields the handler reads; `text` is absent or a string. */
  datatype AnswerBody = AnswerBody(questionId: BodyValue, text: Option<string>, correct: BodyValue)

  /** The check at line 7: a truthy questionId, a non-empty text and a boolean `correct`. */
  predicate BodyAccepted(body: AnswerBody) {
    Truthy(body.questionId) && body.text.Some? && body.text.value != "" && body.correct.Bool?
  }

  const FieldsRequired := HttpError(400, "questionId, text, and correct are required")

  class AnswerTable {
    /** The ids of the `questions` table, which `answers.questionId` references. */
    var questions: set<int>
    var rows: seq<AnswerRow>
    var nextId: int

    ghost predicate Valid()
      reads this
    {
      && (forall q :: q in questions ==> IsInt4(q))
      && (forall i :: 0 <= i < |rows| ==> rows[i].id < nextId && rows[i].questionId in questions)
      && (forall i, j :: 0 <= i < j < |rows| ==> rows[i].id != rows[j].id)
    }

    constructor (questions: set<int>)
      requires forall q :: q in questions ==> IsInt4(q)
      ensures Valid() && this.questions == questions && rows == []
    {
      this.questions, rows, nextId := questions, [], 1;
    }

    /** The handler; it returns the inserted row. */
    method Create(body: AnswerBody) returns (r: Result<AnswerRow, HttpError>)
      requires Valid()
      modifies this`rows, this`nextId
      ensures Valid()
      ensures !BodyAccepted(body) ==> r == Failure(FieldsRequired) && nextId == old(nextId)
      ensures BodyAccepted(body) && (ToNumber(body.questionId).None? || !IsInt4(ToNumber(body.questionId).value))
              ==> r == Failure(DatabaseError) && nextId == old(nextId)
      ensures (&& BodyAccepted(body) && ToNumber(body.questionId).Some? && IsInt4(ToNumber(body.questionId).value)
               && ToNumber(body.questionId).value !in questions)
              ==> r == Failure(DatabaseError) && nextId == old(nextId) + 1
      ensures BodyAccepted(body) && ToNumber(body.questionId).Some? && ToNumber(body.questionId).value in questions
              ==> r.Success?
      ensures r.Failure? ==> rows == old(rows)
      ensures r.Success? ==>
        && BodyAccepted(body) && ToNumber(body.questionId).Some?
        && r.value == AnswerRow(old(nextId), ToNumber(body.questionId).value,
                                body.text.value, body.correct.b)
        && rows == old(rows) + [r.value] && nextId == old(nextId) + 1
    {
      if !BodyAccepted(body) {
        return Failure(FieldsRequired);
      }
      var questionId := ToNumber(body.questionId);
      if questionId.None? || !IsInt4(questionId.value) {
        // NaN or an out-of-range number: the parameter is rejected before the insert runs
        return Failure(DatabaseError);
      }
      if questionId.value !in questions {
        // a foreign-key violation, raised after the serial default has drawn an id
        nextId := nextId + 1;
        return Failure(DatabaseError);
      }
      var answer := AnswerRow(nextId, questionId.value, body.text.value, body.correct.b);
      rows := rows + [answer];
      nextId := nextId + 1;
      r := Success(answer);
    }
  }

  /** `correct: false` is accepted: the check asks for a boolean, not a truthy value. */
  lemma FalseIsAccepted(questionId: nat, text: string)
    requires questionId > 0 && text != ""
    ensures BodyAccepted(AnswerBody(Num(questionId), Some(text), Bool(false)))
    ensures !BodyAccepted(AnswerBody(Num(0), Some(text), Bool(true)))
    ensures !BodyAccepted(AnswerBody(Str(""), Some(text), Bool(true)))
    ensures !BodyAccepted(AnswerBody(Num(questionId), Some(text), Num(1)))
  {
  }
}
