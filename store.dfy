/** The shared question store that `delete_question` and `create_question` change through
    `question.delete()` and `question.insert()`, with the two handlers as methods. */
module Store {
  import opened Wrappers
  import opened Questions
  import opened Responses
  import opened Handlers
  import Pagination

  class TriviaStore {
    /** The question table, in ascending id order. */
    var rows: seq<Question>
    /** The category table: id to type; no endpoint changes it. */
    var categories: map<int, string>
    /** The next value of the table's id sequence: the id the next insert receives. */
    var nextId: int

    ghost predicate Valid()
      reads this
    {
      IdsAscending(rows) && forall q :: q in rows ==> q.id < nextId
    }

    /** The store as the database holds it when the application starts. */
    constructor (rows: seq<Question>, categories: map<int, string>, nextId: int)
      requires IdsAscending(rows)
      requires forall q :: q in rows ==> q.id < nextId
      ensures Valid()
      ensures this.rows == rows && this.categories == categories && this.nextId == nextId
    {
      this.rows := rows;
      this.categories := categories;
      this.nextId := nextId;
    }

    /** DELETE /questions/<question_id>. The `abort(404)` for a missing id is raised inside the
        `try` and caught by its bare `except`, so the caller sees 422. The route's `<int:...>`
        converter only passes unsigned numbers, hence `nat`. */
    method DeleteQuestion(questionId: nat, page: Option<string>) returns (r: Response)
      requires Valid()
      modifies this`rows
      ensures Valid()
      ensures Lookup(old(rows), questionId).None? ==> r == Error(Unprocessable) && rows == old(rows)
      ensures Lookup(old(rows), questionId).Some? ==>
                && rows == RemoveId(old(rows), questionId)
                && |rows| == |old(rows)| - 1
                && r == Deleted(questionId, Pagination.Paginate(page, rows), |rows|)
    {
      var question := Lookup(rows, questionId);
      if question.None? {
        r := Error(Unprocessable);
        return;
      }
      var k :| 0 <= k < |rows| && rows[k] == question.value;
      RemovePresentId(rows, questionId, k);
      rows := RemoveId(rows, questionId);
      r := Deleted(questionId, Pagination.Paginate(page, rows), |rows|);
    }

    /** POST /questions: a search for a truthy `searchTerm`, otherwise the creation of a
        question; the new row takes the sequence's next id, which exceeds every id in use. */
    method CreateQuestion(body: QuestionBody, page: Option<string>) returns (r: Response)
      requires Valid()
      modifies this`rows, this`nextId
      ensures Valid()
      ensures !Dispatch(body).Insert? ==> rows == old(rows) && nextId == old(nextId)
      ensures Dispatch(body).RunSearch? ==> r == SearchQuestions(rows, Dispatch(body).term, page)
      ensures Dispatch(body).Reject? ==> r == Error(Unprocessable)
      ensures Dispatch(body).Insert? ==>
                var a := Dispatch(body);
                && rows == old(rows) + [Question(old(nextId), a.question, a.answer, a.category, a.difficulty)]
                && nextId == old(nextId) + 1
                && r == Created(old(nextId), Pagination.Paginate(page, rows), |old(rows)| + 1)
    {
      match Dispatch(body)
      case RunSearch(term) =>
        r := SearchQuestions(rows, term, page);
      case Reject =>
        r := Error(Unprocessable);
      case Insert(question, answer, category, difficulty) =>
        var created := Question(nextId, question, answer, category, difficulty);
        AppendLargerId(rows, created);
        rows := rows + [created];
        nextId := nextId + 1;
        r := Created(created.id, Pagination.Paginate(page, rows), |rows|);
    }
  }

  /** A body holding only an empty search term creates nothing and answers 422. */
  method EmptySearchTermScenario(store: TriviaStore) returns (r: Response)
    requires store.Valid()
    modifies store
    ensures store.rows == old(store.rows)
    ensures StatusCode(r) == 422
  {
    EmptyTermAloneIsRejected();
    r := store.CreateQuestion(QuestionBody(None, None, None, None, Some("")), None);
  }
}
