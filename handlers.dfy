/** The read-only endpoints and the decision the POST /questions endpoint makes, as functions
    of the question table (`rows`, ordered by id) and the category table (`categories`,
    id to type). */
module Handlers {
  import opened Wrappers
  import opened Questions
  import opened Responses
  import Pagination
  import PyInt
  import Text

  // ---------------------------------------------------------------- GET /questions

  /** `retrieve_questions`: the requested page of all questions; 404 when that page is empty. */
  function RetrieveQuestions(rows: seq<Question>, categories: map<int, string>,
                             page: Option<string>): (r: Response)
    ensures r == Error(NotFound) || (r.QuestionList? && r.questions != [])
  {
    var current := Pagination.Paginate(page, rows);
    if |current| == 0 then Error(NotFound)
    else QuestionList(current, |rows|, categories, 1)
  }

  /** The listing fails with 404 exactly when the page number lies past the end of the table
      (for page 1, when the table is empty), for page 0, and for a negative page that reaches
      back before the start. */
  lemma ListingNotFoundIff(rows: seq<Question>, categories: map<int, string>, page: Option<string>)
    ensures var p := Pagination.PageNumber(page);
            RetrieveQuestions(rows, categories, page) == Error(NotFound) <==>
              (p >= 1 && |rows| <= (p - 1) * 10) || p == 0 || (p < 0 && |rows| <= -p * 10)
  {
    var p := Pagination.PageNumber(page);
    if p >= 1 {
      Pagination.PositivePage(rows, p);
    } else if p == 0 {
      Pagination.PageZeroIsEmpty(rows);
    } else {
      Pagination.NegativePage(rows, p);
    }
  }

  /** An empty table answers 404 for every page, never an empty list. */
  lemma EmptyTableIsNotFound(categories: map<int, string>, page: Option<string>)
    ensures RetrieveQuestions([], categories, page) == Error(NotFound)
    ensures StatusCode(RetrieveQuestions([], categories, page)) == 404
  {
  }

  /** A successful listing reports the size of the whole table, all categories, category 1,
      and a non-empty run of at most ten consecutive questions of the table. */
  lemma ListingSuccess(rows: seq<Question>, categories: map<int, string>, page: Option<string>)
    requires RetrieveQuestions(rows, categories, page).QuestionList?
    ensures var r := RetrieveQuestions(rows, categories, page);
            && r.totalQuestions == |rows| && r.categories == categories && r.currentCategory == 1
            && 0 < |r.questions| <= Pagination.QuestionsPerPage
            && exists a, b :: 0 <= a <= b <= |rows| && r.questions == rows[a..b]
  {
    Pagination.PageIsContiguous(rows, Pagination.PageNumber(page));
  }

  /** A page of an id-ordered selection is id-ordered and holds only records of the selection. */
  lemma PageOfSelection(selection: seq<Question>, page: Option<string>)
    requires IdsAscending(selection)
    ensures IdsAscending(Pagination.Paginate(page, selection))
    ensures forall q :: q in Pagination.Paginate(page, selection) ==> q in selection
  {
    var p := Pagination.PageNumber(page);
    Pagination.PageIsContiguous(selection, p);
    var a, b :| 0 <= a <= b <= |selection| && Pagination.PageSlice(p, selection) == selection[a..b];
    RunOfOrdered(selection, a, b);
  }

  /** A page of a filtered, id-ordered table is id-ordered and holds only kept records. */
  lemma PageOfFilter(rows: seq<Question>, keep: Question -> bool, page: Option<string>)
    requires IdsAscending(rows)
    ensures IdsAscending(Pagination.Paginate(page, Filter(rows, keep)))
    ensures forall q :: q in Pagination.Paginate(page, Filter(rows, keep)) ==> q in rows && keep(q)
  {
    PageOfSelection(Filter(rows, keep), page);
  }

  // ---------------------------------------------------------------- POST /questions, search

  /** `Question.question.ilike("%term%")` */
  function MatchesTerm(term: string): Question -> bool
  {
    (q: Question) => Text.ContainsIgnoringCase(q.question, term)
  }

  /** The questions whose text contains the term whatever the case, in id order. */
  function SearchMatches(rows: seq<Question>, term: string): (r: seq<Question>)
    ensures forall q :: q in r <==> q in rows && Text.ContainsIgnoringCase(q.question, term)
    ensures IdsAscending(rows) ==> IdsAscending(r)
  {
    Filter(rows, MatchesTerm(term))
  }

  /** The search branch of `create_question`: a page of the matches, and how many match in all. */
  function SearchQuestions(rows: seq<Question>, term: string, page: Option<string>): (r: Response)
    ensures r.SearchResults?
    ensures |r.questions| <= Pagination.QuestionsPerPage && |r.questions| <= r.totalQuestions <= |rows|
  {
    var selection := SearchMatches(rows, term);
    SearchResults(Pagination.Paginate(page, selection), |selection|)
  }

  /** Search returns, in id order, only questions of the table whose text contains the term
      whatever the case, and reports as total the number of ALL such questions, not the
      page's size. */
  lemma SearchResultsMatch(rows: seq<Question>, term: string, page: Option<string>)
    requires IdsAscending(rows)
    ensures var r := SearchQuestions(rows, term, page);
            && IdsAscending(r.questions)
            && (forall q :: q in r.questions ==> q in rows && Text.ContainsIgnoringCase(q.question, term))
            && r.totalQuestions == |set q | q in rows && Text.ContainsIgnoringCase(q.question, term)|
  {
    var keep := MatchesTerm(term);
    PageOfFilter(rows, keep, page);
    FilterCount(rows, keep);
    assert (set q | q in rows && keep(q)) == (set q | q in rows && Text.ContainsIgnoringCase(q.question, term));
  }

  /** Page 1 lists every match when there are at most ten. */
  lemma SearchFirstPageIsComplete(rows: seq<Question>, term: string, page: Option<string>)
    requires Pagination.PageNumber(page) == 1
    requires |SearchMatches(rows, term)| <= Pagination.QuestionsPerPage
    ensures forall q :: q in rows && Text.ContainsIgnoringCase(q.question, term) ==>
              q in SearchQuestions(rows, term, page).questions
  {
    var selection := SearchMatches(rows, term);
    Pagination.PositivePage(selection, 1);
    assert selection[0..|selection|] == selection;
  }

  /** Whether the term is typed in upper or lower case does not change the result. */
  lemma SearchIgnoresCase(rows: seq<Question>, term: string, page: Option<string>)
    requires IdsAscending(rows)
    ensures SearchQuestions(rows, term, page) == SearchQuestions(rows, Text.Lower(term), page)
  {
    var keep := MatchesTerm(term);
    var keepLower := MatchesTerm(Text.Lower(term));
    forall q: Question
      ensures keep(q) == keepLower(q)
    {
      Text.MatchIgnoresCase(q.question, term);
    }
    assert IsOrderedSelection(Filter(rows, keep), rows, keepLower);
    FilterIsOrderedSelection(rows, keepLower, Filter(rows, keep));
  }

  // ---------------------------------------------------------------- POST /questions, create

  /** A JSON value sent for `category` or `difficulty`. */
  datatype Json = JStr(s: string) | JInt(n: int)

  /** The body of POST /questions; `None` for a key the body does not have. */
  datatype QuestionBody = QuestionBody(
    question: Option<string>,
    answer: Option<string>,
    category: Option<Json>,
    difficulty: Option<Json>,
    searchTerm: Option<string>)

  /** What the endpoint does with a body. */
  datatype PostAction =
    | RunSearch(term: string)
    | Reject
    | Insert(question: string, answer: string, category: int, difficulty: int)

  /** `if search:` for a string-valued `searchTerm` (absent is `None`, and `""` is falsy). */
  predicate IsTruthy(term: Option<string>)
  {
    term.Some? && term.value != ""
  }

  /** The range of PostgreSQL's `integer`, the type of an `Integer` column. */
  const Int4Min: int := -0x8000_0000
  const Int4Max: int := 0x7FFF_FFFF

  predicate FitsColumn(n: int)
  {
    Int4Min <= n <= Int4Max
  }

  /** The integer an integer column stores for a JSON value; `None` when storing it fails:
      a string that is not a number, or a number outside the column's range. */
  function ColumnInt(v: Json): (r: Option<int>)
    ensures r.Some? ==> FitsColumn(r.value)
    ensures v.JInt? ==> (r.Some? <==> FitsColumn(v.n)) && (r.Some? ==> r.value == v.n)
    ensures v.JStr? && r.Some? ==> PyInt.ParseInt(v.s) == r
  {
    var n := match v
      case JInt(n) => Some(n)
      case JStr(s) => PyInt.ParseInt(s);
    if n.Some? && FitsColumn(n.value) then n else None
  }

  /** `create_question`'s branching: a truthy `searchTerm` searches; otherwise each of the four
      fields, read with `""` as its default, must differ from `""`, and the row is inserted
      (a category or difficulty the integer column cannot hold makes the insert raise, and
      the bare `except` answers 422). */
  function Dispatch(body: QuestionBody): (a: PostAction)
    ensures a.RunSearch? <==> IsTruthy(body.searchTerm)
    ensures a.RunSearch? ==> body.searchTerm == Some(a.term)
    ensures (!IsTruthy(body.searchTerm) &&
             (body.question.GetOr("") == "" || body.answer.GetOr("") == "" ||
              body.category.GetOr(JStr("")) == JStr("") || body.difficulty.GetOr(JStr("")) == JStr("")))
              ==> a == Reject
    ensures a.Insert? ==>
              && body.question == Some(a.question) && a.question != ""
              && body.answer == Some(a.answer) && a.answer != ""
              && body.category.Some? && ColumnInt(body.category.value) == Some(a.category)
              && body.difficulty.Some? && ColumnInt(body.difficulty.value) == Some(a.difficulty)
    ensures (!IsTruthy(body.searchTerm) &&
             body.question.GetOr("") != "" && body.answer.GetOr("") != "" &&
             body.category.Some? && body.category.value != JStr("") && ColumnInt(body.category.value).Some? &&
             body.difficulty.Some? && body.difficulty.value != JStr("") && ColumnInt(body.difficulty.value).Some?)
              ==> a.Insert?
  {
    var question := body.question.GetOr("");
    var answer := body.answer.GetOr("");
    var category := body.category.GetOr(JStr(""));
    var difficulty := body.difficulty.GetOr(JStr(""));
    if IsTruthy(body.searchTerm) then RunSearch(body.searchTerm.value)
    else if answer == "" || category == JStr("") || difficulty == JStr("") || question == "" then Reject
    else
      match (ColumnInt(category), ColumnInt(difficulty))
      case (Some(c), Some(d)) => Insert(question, answer, c, d)
      case _ => Reject
  }

  /** An empty `searchTerm` is the same as none: the body goes to the create branch. */
  lemma EmptyTermFallsThrough(body: QuestionBody)
    requires body.searchTerm == Some("")
    ensures Dispatch(body) == Dispatch(body.(searchTerm := None))
    ensures !Dispatch(body).RunSearch?
  {
  }

  /** A body holding only an empty search term is rejected, not searched. */
  lemma EmptyTermAloneIsRejected()
    ensures Dispatch(QuestionBody(None, None, None, None, Some(""))) == Reject
  {
  }

  /** A complete body whose category and difficulty are integers is inserted as given. */
  lemma CompleteBodyIsInserted(question: string, answer: string, category: int, difficulty: int)
    requires question != "" && answer != ""
    requires FitsColumn(category) && FitsColumn(difficulty)
    ensures Dispatch(QuestionBody(Some(question), Some(answer), Some(JInt(category)), Some(JInt(difficulty)), None))
              == Insert(question, answer, category, difficulty)
  {
  }

  /** Category and difficulty sent as decimal strings, as an HTML form sends them, are stored
      as those numbers. */
  lemma DecimalStringsAreInserted(question: string, answer: string, category: int, difficulty: int)
    requires question != "" && answer != ""
    requires FitsColumn(category) && FitsColumn(difficulty)
    ensures Dispatch(QuestionBody(Some(question), Some(answer),
                                  Some(JStr(PyInt.ShowInt(category))), Some(JStr(PyInt.ShowInt(difficulty))), None))
              == Insert(question, answer, category, difficulty)
  {
    ColumnReadsDecimal(category);
    ColumnReadsDecimal(difficulty);
    var body := QuestionBody(Some(question), Some(answer),
                             Some(JStr(PyInt.ShowInt(category))), Some(JStr(PyInt.ShowInt(difficulty))), None);
    assert JStr(PyInt.ShowInt(category)) != JStr("") && JStr(PyInt.ShowInt(difficulty)) != JStr("");
    assert !IsTruthy(body.searchTerm);
  }

  /** A decimal string sent for an integer column is stored as the number it spells. */
  lemma ColumnReadsDecimal(n: int)
    requires FitsColumn(n)
    ensures ColumnInt(JStr(PyInt.ShowInt(n))) == Some(n)
  {
    PyInt.ShowNatLength(if n < 0 then -n else n, 10);
    PyInt.ParseShowInt(n);
  }

  /** A category or difficulty outside the column's range makes the insert fail: 422. */
  lemma OutOfRangeIsRejected(body: QuestionBody)
    requires !IsTruthy(body.searchTerm)
    requires (body.category.Some? && body.category.value.JInt? && !FitsColumn(body.category.value.n))
          || (body.difficulty.Some? && body.difficulty.value.JInt? && !FitsColumn(body.difficulty.value.n))
    ensures Dispatch(body) == Reject
  {
  }

  // ---------------------------------------------------------------- GET /categories/<id>/questions

  /** `Question.category == categoryId` */
  function OfCategory(categoryId: int): Question -> bool
  {
    (q: Question) => q.category == categoryId
  }

  /** `Question.query.filter(Question.category == categoryId)` */
  function InCategory(rows: seq<Question>, categoryId: int): (r: seq<Question>)
    ensures forall q :: q in r <==> q in rows && q.category == categoryId
    ensures IdsAscending(rows) ==> IdsAscending(r)
  {
    Filter(rows, OfCategory(categoryId))
  }

  /** `retrieve_questions_by_category`: 404 exactly for a category id the category table
      does not hold, otherwise a page of its questions and their number. The route's
      `<int:...>` converter only passes unsigned numbers, hence `nat`. */
  function RetrieveQuestionsByCategory(rows: seq<Question>, categories: map<int, string>,
                                       categoryId: nat, page: Option<string>): (r: Response)
    ensures r.Error? <==> categoryId !in categories
    ensures r.Error? ==> r == Error(NotFound)
    ensures !r.Error? ==> r.CategoryQuestions? && |r.questions| <= Pagination.QuestionsPerPage
                          && |r.questions| <= r.totalQuestions <= |rows|
  {
    if categoryId !in categories then Error(NotFound)
    else
      var selection := InCategory(rows, categoryId);
      CategoryQuestions(Pagination.Paginate(page, selection), |selection|)
  }

  /** For a known category the reply lists, in id order, only questions of that category, and
      counts all of that category's questions; a page past its end is an empty success. */
  lemma CategoryResults(rows: seq<Question>, categories: map<int, string>, categoryId: nat, page: Option<string>)
    requires IdsAscending(rows)
    requires categoryId in categories
    ensures RetrieveQuestionsByCategory(rows, categories, categoryId, page).CategoryQuestions?
    ensures var r := RetrieveQuestionsByCategory(rows, categories, categoryId, page);
            && IdsAscending(r.questions)
            && (forall q :: q in r.questions ==> q in rows && q.category == categoryId)
            && r.totalQuestions == |set q | q in rows && q.category == categoryId|
  {
    var keep := OfCategory(categoryId);
    PageOfFilter(rows, keep, page);
    FilterCount(rows, keep);
    assert (set q | q in rows && keep(q)) == (set q | q in rows && q.category == categoryId);
  }

  // ---------------------------------------------------------------- POST /quizzes

  /** The `quiz_category` object; `id` is `None` when the object has no "id" key. */
  datatype CategorySelector = CategorySelector(id: Option<int>)

  /** The body of POST /quizzes; `None` for a key the body does not have. */
  datatype QuizBody = QuizBody(previousQuestions: Option<seq<int>>, quizCategory: Option<CategorySelector>)

  /** Whether the body restricts the quiz to one category: a selector whose id is not 0. */
  predicate Restricts(body: QuizBody)
  {
    body.quizCategory.Some? && body.quizCategory.value.id.Some? && body.quizCategory.value.id.value != 0
  }

  /** `~Question.id.in_(previous_questions)` */
  function NotAsked(previous: seq<int>): Question -> bool
  {
    (q: Question) => q.id !in previous
  }

  /** The questions the quiz may ask: not asked before, and in the chosen category if one is chosen. */
  function QuizCandidates(rows: seq<Question>, body: QuizBody): (r: seq<Question>)
    ensures forall q :: q in r <==> q in rows && Eligible(q, body)
  {
    var previous := body.previousQuestions.GetOr([]);
    var available := Filter(rows, NotAsked(previous));
    if Restricts(body) then Filter(available, OfCategory(body.quizCategory.value.id.value))
    else available
  }

  /** `quizzes`: the candidate at position `choice` (modulo their number) stands for the one
      `random.choice` draws; `question: None` when there is none. A selector without an "id"
      raises inside the `try`, which answers 422. */
  function Quiz(rows: seq<Question>, body: QuizBody, choice: nat): (r: Response)
    ensures r.Error? <==> body.quizCategory.Some? && body.quizCategory.value.id.None?
    ensures r.Error? ==> r == Error(Unprocessable)
    ensures !r.Error? ==> r.QuizQuestion?
  {
    if body.quizCategory.Some? && body.quizCategory.value.id.None? then Error(Unprocessable)
    else
      var questions := QuizCandidates(rows, body);
      if |questions| == 0 then QuizQuestion(None)
      else QuizQuestion(Some(questions[choice % |questions|]))
  }

  /** `q` may be asked: it was not asked before and lies in the chosen category, if any. */
  predicate Eligible(q: Question, body: QuizBody)
  {
    && q.id !in body.previousQuestions.GetOr([])
    && (Restricts(body) ==> q.category == body.quizCategory.value.id.value)
  }

  /** The question the quiz asks is a question of the table that was not asked before and,
      when a category is chosen, belongs to it. */
  lemma QuizPickIsEligible(rows: seq<Question>, body: QuizBody, choice: nat)
    requires Quiz(rows, body, choice).QuizQuestion? && Quiz(rows, body, choice).question.Some?
    ensures var q := Quiz(rows, body, choice).question.value;
            q in rows && Eligible(q, body)
  {
  }

  /** The quiz answers `question: null`, with success, exactly when no question of the table
      is eligible; otherwise it asks one. */
  lemma QuizNullIffExhausted(rows: seq<Question>, body: QuizBody, choice: nat)
    requires !(body.quizCategory.Some? && body.quizCategory.value.id.None?)
    ensures Quiz(rows, body, choice) == QuizQuestion(None) <==>
              forall q :: q in rows ==> !Eligible(q, body)
    ensures Quiz(rows, body, choice).QuizQuestion?
  {
    var questions := QuizCandidates(rows, body);
    if |questions| > 0 {
      assert questions[choice % |questions|] in questions;
    }
  }

  /** Every eligible question is one the random pick can produce. */
  lemma QuizCanAskAnyEligible(rows: seq<Question>, body: QuizBody, q: Question)
    requires !(body.quizCategory.Some? && body.quizCategory.value.id.None?)
    requires q in rows && Eligible(q, body)
    ensures exists choice: nat :: Quiz(rows, body, choice) == QuizQuestion(Some(q))
  {
    var questions := QuizCandidates(rows, body);
    assert q in questions;
    var k :| 0 <= k < |questions| && questions[k] == q;
    SmallRemainder(k, |questions|);
    assert Quiz(rows, body, k) == QuizQuestion(Some(q));
  }

  lemma SmallRemainder(k: nat, n: nat)
    requires k < n
    ensures k % n == k
  {
  }

  /** Once every question of the chosen category has been asked, the quiz answers
      `question: null` rather than an error. */
  lemma QuizCategoryExhausted(rows: seq<Question>, previous: seq<int>, category: int, choice: nat)
    requires category != 0
    requires forall q :: q in rows && q.category == category ==> q.id in previous
    ensures Quiz(rows, QuizBody(Some(previous), Some(CategorySelector(Some(category)))), choice)
              == QuizQuestion(None)
    ensures StatusCode(Quiz(rows, QuizBody(Some(previous), Some(CategorySelector(Some(category)))), choice)) == 200
  {
    QuizNullIffExhausted(rows, QuizBody(Some(previous), Some(CategorySelector(Some(category)))), choice);
  }
}
