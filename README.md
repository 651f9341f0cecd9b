# Trivia API — a Dafny model of its request handlers

The trivia backend (`backend/flaskr/__init__.py`) is a Flask application that serves quiz
questions from a relational store. Under its framework and ORM plumbing sit a few precise
rules, and this project states and proves them over an abstract, in-memory store:

- **Pagination** (`paginate_questions`): page `p` of a selection is the Python slice
  `selection[(p-1)*10 : (p-1)*10+10]`. A missing `page` query parameter, or one that is not an
  integer, means page 1 (Flask's `request.args.get("page", 1, type=int)`, which calls Python's
  `int()`: surrounding space, tab, line feed, vertical tab, form feed and carriage return are
  skipped, one sign is allowed, digits may be grouped by single underscores, and more than 4300
  digits are refused, as in Python 3.11 and later and in the 3.10.7, 3.9.14, 3.8.14 and
  3.7.14 security releases). Python slice semantics are kept exactly, so page 0 is always empty, and a negative
  page counts back from the end of the selection.
- **Question listing** (GET /questions): the requested page of all questions ordered by id,
  the size of the table, all categories, and a `current_category` that is always 1. It answers
  404 whenever that page is empty, which includes every page of an empty table.
- **Delete** (DELETE /questions/<id>): removes the row with that id. The route only matches
  unsigned digit strings, so the id is a `nat`. The `abort(404)` for a
  missing id is raised inside a `try` whose bare `except` answers `abort(422)`, so a missing id
  is reported as 422.
- **Create or search** (POST /questions): a truthy `searchTerm` runs a case-insensitive
  substring search on the question text and never inserts. An absent or empty term falls through
  to creation. Creation rejects (422) a body in which any of `question`, `answer`, `category` or
  `difficulty` is `""`; absent fields default to `""`. Otherwise it inserts one row, which takes
  the next id of the table's sequence. A `category` or `difficulty` given as a string the column cannot
  read as an integer, or as an integer outside the 32-bit range of PostgreSQL's `integer`
  column, makes the insert raise: 422.
- **Questions of a category** (GET /categories/<id>/questions): 404 for an unknown category.
  Otherwise it returns a page of that category's questions in id order and their total number.
- **Quiz** (POST /quizzes): the candidates are the questions whose id is not in
  `previous_questions`. When `quiz_category` is given with an id other than 0, only questions of
  that category remain. The reply is `question: null`, a success, when no candidate remains, and
  otherwise one of the candidates.
- **Error envelopes**: `{success: false, error: 404 | 422 | 400, message}`, with fixed messages.

Modules:

| module | file | what it holds |
|---|---|---|
| `Wrappers` | `wrappers.dfy` | `Option` |
| `PyInt` | `pyint.dfy` | Python's `int()` on a base-10 string, and `str()` of an integer |
| `Pagination` | `pagination.dfy` | `paginate_questions` with Python slice bounds |
| `Text` | `text.dfy` | ASCII lower case and the substring test behind `ILIKE '%term%'` |
| `Questions` | `questions.dfy` | the `Question` record, id order, filtering, lookup and removal by id |
| `Responses` | `responses.dfy` | the reply payloads, the error envelopes and the HTTP status of each reply |
| `Handlers` | `handlers.dfy` | the read-only endpoints, the create/search decision and the quiz, as functions |
| `Store` | `store.dfy` | `TriviaStore`, a class whose methods are the two endpoints that change the table |

The question table is a `seq<Question>` kept in ascending id order (`IdsAscending`), so
`order_by(Question.id)` is the sequence itself, and `query.filter(...)` is `Questions.Filter`.
The category table is a `map<int, string>` from id to type. The table's id sequence is the
field `nextId`. The store invariant says every id in use is below it, so an insert appends at
the end and keeps the order. The random pick of the quiz is an argument `choice`, and the
question asked is the candidate at `choice` modulo the number of candidates.
`QuizCanAskAnyEligible` proves that every candidate can be asked.

Two details of the code that the model keeps:
- After a create or a delete, the page returned is the one the request's `page` parameter
  names, not page 1.
- Creation compares each field with `""` only. A difficulty of `0` or a category of `0` is
  accepted.

## Model

| member | source | states |
|---|---|---|
| `Pagination.PageSlice` | backend/flaskr/__init__.py:11-19 | a page never holds more than QUESTIONS_PER_PAGE (10) items, for any integer page |
| `Pagination.Paginate` | backend/flaskr/__init__.py:11-19 | the page chosen by the `page` query parameter holds at most 10 items |
| `Pagination.PySlice` | backend/flaskr/__init__.py:17 | Python's `s[i:j]`: with bounds inside the sequence it is the ordinary slice `s[i..j]`, and for any bounds it is a run of consecutive items |
| `Pagination.PageNumber` | backend/flaskr/__init__.py:12 | the page is the number `int()` reads from the parameter, and 1 when the parameter is missing or `int()` fails |
| `Pagination.PositivePage` | backend/flaskr/__init__.py:13-17 | for page p ≥ 1 the result is exactly `selection[(p-1)*10 .. min(L, p*10)]` in the original order (empty past the end), and its length is `min(10, max(0, L-(p-1)*10))` |
| `Pagination.PageZeroIsEmpty` | backend/flaskr/__init__.py:13-17 | page 0 is empty for every selection |
| `Pagination.NegativePage` | backend/flaskr/__init__.py:13-17 | a negative page p holds the items from `max(0, L+10p-10)` to `L+10p`, counted back from the end, and is empty when `L+10p <= 0` |
| `Pagination.PageIsContiguous` | backend/flaskr/__init__.py:17 | every page, for any page number, is a run of at most 10 consecutive items of the selection |
| `Pagination.DefaultPage` | backend/flaskr/__init__.py:12 | a missing page parameter, or one that is not an integer, gives page 1, the first `min(L, 10)` items |
| `Pagination.PaddedSignedPage` | backend/flaskr/__init__.py:12 | `?page= +5 ` selects page 5: white space around the number is skipped and a `+` sign is read |
| `Pagination.GroupedPage` | backend/flaskr/__init__.py:12 | `?page=1_0` selects page 10: digits grouped by an underscore are read |
| `Pagination.ExplicitPage` | backend/flaskr/__init__.py:12 | the parameter written as the decimal form of n (at most 4300 digits) selects page n |
| `Pagination.PagesCover` | backend/flaskr/__init__.py:11-19 | pages 1..n read in order give exactly the first `min(L, 10n)` items: pages never overlap, skip or reorder |
| `Handlers.RetrieveQuestions` | backend/flaskr/__init__.py:62-80 | the listing is either the 404 error or a success with a non-empty page, never an empty list |
| `PyInt.Strip` | backend/flaskr/__init__.py:12 | the text `int()` reads is the parameter with only ASCII white space (space, tab, line feed, vertical tab, form feed, carriage return) removed at both ends |
| `PyInt.ParseInt` | backend/flaskr/__init__.py:12 | `int()` yields a number only for text that holds a digit |
| `PyInt.ParseShowInt` | backend/flaskr/__init__.py:12 | `int(str(n)) == n` for every integer n of at most 4300 digits |
| `PyInt.TooManyDigits` | backend/flaskr/__init__.py:12 | a run of more than 4300 digits, signed or not, is refused, so the page falls back to 1 |
| `PyInt.NoDigitNoNumber` | backend/flaskr/__init__.py:12 | text without a digit is rejected, so the page falls back to its default |
| `Handlers.ListingNotFoundIff` | backend/flaskr/__init__.py:63-70 | the listing answers 404 exactly when page p ≥ 1 starts at or past the end of the table, when p is 0, or when a negative p reaches back before the start |
| `Handlers.EmptyTableIsNotFound` | backend/flaskr/__init__.py:64-70 | an empty table answers 404 (status 404) for every page, never an empty list |
| `Handlers.ListingSuccess` | backend/flaskr/__init__.py:72-80 | a successful listing has `total_questions` = table size, all categories, `current_category` = 1, and 1 to 10 consecutive questions of the table |
| `Questions.Filter` | backend/flaskr/__init__.py:175-177 | a filtered query holds exactly the rows that satisfy the condition, and keeps id order |
| `Questions.OrderedSelectionIsUnique` | backend/flaskr/__init__.py:64 | two id-ordered sequences holding the same records are equal |
| `Questions.FilterIsOrderedSelection` | backend/flaskr/__init__.py:129-131 | any id-ordered sequence of exactly the matching rows is the filter's result |
| `Questions.CountOfAscending` | backend/flaskr/__init__.py:76 | an id-ordered table holds as many records as it has rows |
| `Questions.FilterCount` | backend/flaskr/__init__.py:184 | `len(selection.all())` is the number of records that satisfy the condition |
| `Questions.Lookup` | backend/flaskr/__init__.py:88 | `one_or_none` finds a row of the table with the requested id, and finds nothing only when no row has that id |
| `Questions.RemoveId` | backend/flaskr/__init__.py:93 | the table after `question.delete()` holds exactly the rows whose id differs, is no longer, and stays in id order |
| `Questions.RemovePresentId` | backend/flaskr/__init__.py:93 | removing a present id cuts exactly that record out: the rows before and after stay in order, and the table is one row shorter |
| `Questions.AppendLargerId` | backend/flaskr/__init__.py:147-149 | appending a row whose id exceeds every id in use keeps the table in id order |
| `Text.ContainsIff` | backend/flaskr/__init__.py:130 | the left-to-right substring test holds exactly when the term occurs at some position of the text |
| `Text.ContainsIgnoringCase` | backend/flaskr/__init__.py:130 | `ilike('%term%')` holds exactly when the lower-cased term occurs at some position of the lower-cased text |
| `Text.MatchIgnoresCase` | backend/flaskr/__init__.py:130 | the match does not change when the text or the term is lower-cased |
| `Responses.ErrorEnvelope` | backend/flaskr/__init__.py:236-252 | each error body has `success: false`, an `error` equal to the reply's status (404, 422 or 400), and a non-empty message |
| `Responses.EnvelopeIdentifiesKind` | backend/flaskr/__init__.py:236-252 | the status code alone, and the message alone, tell the three errors apart |
| `Responses.StatusCode` | backend/flaskr/__init__.py:236-252 | a reply has status 200 exactly when it is a success payload; an error reply's status is its envelope's `error` |
| `Handlers.PageOfSelection` | backend/flaskr/__init__.py:178 | a page of an id-ordered selection is id-ordered and holds only records of the selection |
| `Handlers.SearchMatches` | backend/flaskr/__init__.py:129-131 | the search selection holds exactly the rows whose text contains the term ignoring case, in id order |
| `Handlers.SearchQuestions` | backend/flaskr/__init__.py:128-140 | the search branch always succeeds, with at most 10 questions, and a total that is at least the page size and at most the table size |
| `Handlers.SearchResultsMatch` | backend/flaskr/__init__.py:128-140 | search returns, in id order, only rows whose text contains the term ignoring case; `total_questions` is the number of all matches, not the page size |
| `Handlers.SearchFirstPageIsComplete` | backend/flaskr/__init__.py:129-140 | on page 1, when there are at most 10 matches, every row whose text contains the term is listed |
| `Handlers.SearchIgnoresCase` | backend/flaskr/__init__.py:129-131 | searching for a term or for its lower-case form gives the same reply |
| `Handlers.Dispatch` | backend/flaskr/__init__.py:121-149 | a body searches exactly when `searchTerm` is truthy, and then with that term; with no truthy term, any field that is `""` or absent means 422, and four non-empty fields whose category and difficulty the columns accept are inserted; an insert carries exactly the body's fields |
| `Handlers.EmptyTermFallsThrough` | backend/flaskr/__init__.py:125-128 | an empty `searchTerm` is treated as absent: the body goes to the create branch |
| `Handlers.EmptyTermAloneIsRejected` | backend/flaskr/__init__.py:121-145 | a body holding only `searchTerm: ""` is rejected, not searched |
| `Handlers.ColumnInt` | backend/flaskr/__init__.py:147-149 | the column stores a JSON integer exactly when it fits PostgreSQL's 32-bit `integer`, and a string only as the in-range number `int()` reads from it |
| `Handlers.CompleteBodyIsInserted` | backend/flaskr/__init__.py:143-149 | four non-empty fields with 32-bit integer category and difficulty are inserted as given |
| `Handlers.OutOfRangeIsRejected` | backend/flaskr/__init__.py:147-164 | an integer category or difficulty outside the 32-bit range makes the insert fail, answered with 422 |
| `Handlers.DecimalStringsAreInserted` | backend/flaskr/__init__.py:147-149 | category and difficulty sent as decimal strings of 32-bit numbers are stored as those numbers |
| `Handlers.InCategory` | backend/flaskr/__init__.py:175-177 | the category selection holds exactly the rows of that category, in id order |
| `Handlers.RetrieveQuestionsByCategory` | backend/flaskr/__init__.py:169-186 | the endpoint answers 404 exactly for a category id the category table does not hold; otherwise a success with at most 10 questions and a total between the page size and the table size |
| `Handlers.CategoryResults` | backend/flaskr/__init__.py:175-186 | for a known category the reply lists, in id order, only that category's questions, and `total_questions` counts all of them |
| `Handlers.QuizCandidates` | backend/flaskr/__init__.py:202-209 | the candidates are exactly the table rows not asked before that, when a non-zero category is chosen, belong to it |
| `Handlers.Quiz` | backend/flaskr/__init__.py:194-229 | the quiz answers 422 exactly when `quiz_category` has no `id`, and otherwise a quiz question (possibly null) |
| `Handlers.QuizPickIsEligible` | backend/flaskr/__init__.py:202-226 | the question asked is a row of the table, its id is not in `previous_questions`, and it belongs to the chosen non-zero category |
| `Handlers.QuizNullIffExhausted` | backend/flaskr/__init__.py:211-217 | with a well-formed selector the reply is a success, and it is `question: null` exactly when no row is eligible |
| `Handlers.QuizCanAskAnyEligible` | backend/flaskr/__init__.py:219 | every eligible row is one the random pick can return |
| `Handlers.QuizCategoryExhausted` | backend/flaskr/__init__.py:207-217 | once every question of the chosen category has been asked, the reply is `question: null` with status 200 |
| `Store.TriviaStore.DeleteQuestion` | backend/flaskr/__init__.py:86-107 | an id that reaches the handler but is missing answers 422 (not 404) and leaves the table unchanged; a present id removes exactly that row, reports it as `deleted`, and `total_questions` = old size − 1; nothing else in the store changes |
| `Store.TriviaStore.CreateQuestion` | backend/flaskr/__init__.py:118-164 | a search changes nothing and returns the search reply; a rejected body changes nothing and answers 422; an insert appends one row with the next id and the body's fields, and `total_questions` = old size + 1 |
| `Store.EmptySearchTermScenario` | backend/flaskr/__init__.py:125-145 | posting only `searchTerm: ""` leaves the table unchanged and answers 422 |

## Left out

- Flask application set-up, routing, CORS and the `after_request` headers (lines 21-37): these are framework configuration with no logic.
- `retrieve_categories` (GET /categories, lines 44-54) has no operation of its own. The category table it lists is the store's `categories` map, which the question listing returns unchanged.
- JSON parsing and serialisation: request bodies and replies are Dafny datatypes. `request.get_json()` (lines 119 and 196) runs outside the `try`. A malformed or missing JSON body is answered by the framework (400 through the handler at lines 250-252, or 415 or 500 depending on the Flask version), and is reached only through JSON parsing, which is not modelled.
- `models.py` is not part of this model. Its columns are taken as integer `id`, `category` and `difficulty` and string `question` and `answer`. `Question.format()` is the record itself.
- Id assignment: the table's sequence is the field `nextId`, and the model assumes that the sequence is above every id already in the table.
- The search does not model the database's collation, non-ASCII case folding, or `%`, `_` and `\` inside the term. These characters act as wildcards or escapes in `ILIKE`. The model uses ASCII lower-casing and plain substring containment.
- `category` and `difficulty` are modelled as JSON strings or integers. A JSON `null`, float or boolean passes the `== ""` test (lines 143-144) and reaches `question.insert()`; what the column then does with it is not modelled.
- `searchTerm`, `question` and `answer` are modelled as strings. The truthiness of other JSON values, and `"%{}%".format` of a non-string term, are not modelled.
- `PyInt.ParseInt` reads ASCII digits only and skips only the ASCII white space `int()` skips in an ASCII string. Python's `int()` also accepts non-ASCII decimal digits and non-ASCII white space. The 4300-digit limit is the default of Python 3.11 and later and of the 3.10.7, 3.9.14, 3.8.14 and 3.7.14 security releases; earlier releases have none, and a changed `sys.set_int_max_str_digits` setting is not modelled.
- `PyInt.ParseInt`: its contract says only that a number needs a digit. The exact syntax it accepts (white space, one sign, digits grouped by single underscores) is its body, and `ParseShowInt` pins the value it reads.
- Handlers.ColumnInt: converting a string `category` or `difficulty` to the integer column is the database's work. The model reads such a string with `PyInt.ParseInt` followed by the column's 32-bit range check, and treats a value it rejects as the failed insert that the bare `except` turns into 422. PostgreSQL's own text-to-integer syntax is not modelled.
- `random.choice` (line 219): uniformity is not modelled. The pick is an argument, and the lemmas state membership and reachability.
- Failures of the infrastructure (database outage, malformed body) that the bare `except` clauses turn into 422 are not modelled. Only the explicit `abort` calls, the caught `abort(404)` in delete, the `KeyError` of a `quiz_category` without `"id"`, and the failed insert of a `category` or `difficulty` the integer column cannot store (a string it cannot read as an integer, or an integer outside the 32-bit range) are modelled.
- A string `quiz_category["id"]` compared with `0` and then passed through `int()` (lines 207-209) is not modelled: ids are integers. Only the first `page` value of the query string is used, and URL decoding is not modelled.
- The 400 handler (lines 250-252) is modelled only as its envelope: it is reached only through JSON parsing, which is not modelled.
- Concurrent requests are not modelled: each handler runs as one atomic step on the store.
- Routing: a path whose id is not an unsigned digit string (DELETE /questions/-1, say) never reaches `delete_question` or `retrieve_questions_by_category`; the router answers it with the 404 envelope. The model starts at the handler, with the id a `nat`.
- Store.TriviaStore.CreateQuestion: the id sequence itself is unbounded; the 32-bit limit of the `id` column is not modelled.
