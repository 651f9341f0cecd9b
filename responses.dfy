/** What the endpoints answer: the success payloads and the three fixed error envelopes. */
module Responses {
  import opened Wrappers
  import opened Questions

  /** The errors the application registers handlers for. */
  datatype ErrorKind = NotFound | Unprocessable | BadRequest

  /** The HTTP status of each error handler's reply. */
  function Status(kind: ErrorKind): int
  {
    match kind
    case NotFound => 404
    case Unprocessable => 422
    case BadRequest => 400
  }

  /** `{"success": False, "error": <code>, "message": <text>}` */
  datatype ErrorBody = ErrorBody(success: bool, error: int, message: string)

  /** The JSON body each error handler returns; its `error` field is the reply's status. */
  function ErrorEnvelope(kind: ErrorKind): (body: ErrorBody)
    ensures !body.success && body.error == Status(kind)
    ensures body.error in {400, 404, 422} && body.message != ""
  {
    match kind
    case NotFound => ErrorBody(false, 404, "resource not found")
    case Unprocessable => ErrorBody(false, 422, "unprocessable")
    case BadRequest => ErrorBody(false, 400, "bad request")
  }

  /** A client can tell the three errors apart by the status code alone, and by the message alone. */
  lemma EnvelopeIdentifiesKind(a: ErrorKind, b: ErrorKind)
    ensures ErrorEnvelope(a).error == ErrorEnvelope(b).error ==> a == b
    ensures ErrorEnvelope(a).message == ErrorEnvelope(b).message ==> a == b
  {
  }

  /** The replies of the question endpoints; every one but `Error` carries `"success": True`. */
  datatype Response =
    | QuestionList(questions: seq<Question>, totalQuestions: int,
                   categories: map<int, string>, currentCategory: int)
    | Deleted(deleted: int, questions: seq<Question>, totalQuestions: int)
    | Created(created: int, questions: seq<Question>, totalQuestions: int)
    | SearchResults(questions: seq<Question>, totalQuestions: int)
    | CategoryQuestions(questions: seq<Question>, totalQuestions: int)
    | QuizQuestion(question: Option<Question>)
    | Error(kind: ErrorKind)

  /** The HTTP status of a reply: 200 for every success payload. */
  function StatusCode(r: Response): (code: int)
    ensures code == 200 <==> !r.Error?
    ensures r.Error? ==> code == ErrorEnvelope(r.kind).error
  {
    if r.Error? then Status(r.kind) else 200
  }
}
