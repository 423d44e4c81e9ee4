/**
 * The error values of the service (internal/pkg/errors) and the table that maps
 * each of them to an HTTP status (internal/pkg/errors/http_codes.go).
 */
module Errors {
  import opened Wrappers

  /** Every sentinel error the modelled code returns. Go compares them by identity. */
  datatype Error =
    | Internal
    | UserNotFound | UserAlreadyExists
    | ForumNotFound | ForumAlreadyExists
    | ThreadNotFound | ThreadAlreadyExists
    | VoiceNotFound | VoiceAlreadyExists
    | PostNotFound | ParentPostNotFound
    | InvalidIDParam | InvalidLimitParam | InvalidDescParam
    | ReadBody | ParseJSON

  /** A Go `(value, error)` pair; `err == None` is a nil error. */
  datatype Reply<T> = Reply(value: T, err: Option<Error>)

  /** The outcome of one SQL statement that either yields rows or fails. */
  datatype Result<T> = Ok(value: T) | Err(error: Error)

  const StatusOK := 200
  const StatusCreated := 201
  const StatusBadRequest := 400
  const StatusNotFound := 404
  const StatusConflict := 409
  const StatusInternalServerError := 500

  /** The `httpCodes` map. ErrInvalidDescParam is deliberately absent, as in the source. */
  const HttpCodes: map<Error, int> := map[
    Internal := StatusInternalServerError,
    UserNotFound := StatusNotFound,
    UserAlreadyExists := StatusConflict,
    ForumNotFound := StatusNotFound,
    ForumAlreadyExists := StatusConflict,
    ThreadNotFound := StatusNotFound,
    ThreadAlreadyExists := StatusConflict,
    VoiceNotFound := StatusNotFound,
    VoiceAlreadyExists := StatusConflict,
    PostNotFound := StatusNotFound,
    ParentPostNotFound := StatusNotFound,
    InvalidIDParam := StatusBadRequest,
    InvalidLimitParam := StatusBadRequest,
    ReadBody := StatusBadRequest,
    ParseJSON := StatusBadRequest
  ]

  /** The error kinds, named independently of the table. */
  predicate IsNotFound(e: Error) {
    e.UserNotFound? || e.ForumNotFound? || e.ThreadNotFound? || e.VoiceNotFound? ||
    e.PostNotFound? || e.ParentPostNotFound?
  }

  predicate IsAlreadyExists(e: Error) {
    e.UserAlreadyExists? || e.ForumAlreadyExists? || e.ThreadAlreadyExists? || e.VoiceAlreadyExists?
  }

  predicate IsBadInput(e: Error) {
    e.InvalidIDParam? || e.InvalidLimitParam? || e.ReadBody? || e.ParseJSON?
  }

  /** GetHTTPCodeByError: the mapped code and true for a key of the table, 500 and false otherwise. */
  function GetHTTPCodeByError(err: Error): (r: (int, bool))
    ensures r.1 <==> err != InvalidDescParam
    ensures IsNotFound(err) ==> r == (StatusNotFound, true)
    ensures IsAlreadyExists(err) ==> r == (StatusConflict, true)
    ensures IsBadInput(err) ==> r == (StatusBadRequest, true)
    ensures err == Internal ==> r == (StatusInternalServerError, true)
    ensures !r.1 ==> r.0 == StatusInternalServerError
  {
    TableKeys(err);
    if err in HttpCodes then (HttpCodes[err], true) else (StatusInternalServerError, false)
  }

  /** The table's keys are every error except ErrInvalidDescParam. */
  lemma TableKeys(err: Error)
    ensures err in HttpCodes <==> err != InvalidDescParam
  {
    match err
    case Internal =>
    case UserNotFound =>
    case UserAlreadyExists =>
    case ForumNotFound =>
    case ForumAlreadyExists =>
    case ThreadNotFound =>
    case ThreadAlreadyExists =>
    case VoiceNotFound =>
    case VoiceAlreadyExists =>
    case PostNotFound =>
    case ParentPostNotFound =>
    case InvalidIDParam =>
    case InvalidLimitParam =>
    case InvalidDescParam =>
    case ReadBody =>
    case ParseJSON =>
  }

  /** Every error lands in exactly one of the four status classes. */
  lemma StatusClasses(err: Error)
    ensures GetHTTPCodeByError(err).0 == StatusNotFound <==> IsNotFound(err)
    ensures GetHTTPCodeByError(err).0 == StatusConflict <==> IsAlreadyExists(err)
    ensures GetHTTPCodeByError(err).0 == StatusBadRequest <==> IsBadInput(err)
    ensures GetHTTPCodeByError(err).0 == StatusInternalServerError <==> err == Internal || err == InvalidDescParam
  {
  }

  /** The table with the description parameter's error added as a bad request. */
  const HttpCodesIntended: map<Error, int> := HttpCodes[InvalidDescParam := StatusBadRequest]

  /** The status of an error under the completed table: every error is a key, and every bad parameter is a 400. */
  function StatusOf(err: Error): (code: int)
    ensures err in HttpCodesIntended && code == HttpCodesIntended[err]
    ensures code == StatusBadRequest <==> IsBadInput(err) || err == InvalidDescParam
    ensures err != InvalidDescParam ==> code == GetHTTPCodeByError(err).0
  {
    TableKeys(err);
    StatusClasses(err);
    HttpCodesIntended[err]
  }
}
