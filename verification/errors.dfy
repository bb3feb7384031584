/** The application error type `MyError` (src/controllers/error.rs) and
    how each variant becomes an HTTP response. */
module Errors {
  import opened Results
  import opened Http

  /** One failed field rule as the validator crate reports it. */
  datatype FieldError = FieldError(code: string, message: string)

  /** Failed fields keyed by field name. */
  type ValidationErrors = map<string, FieldError>

  /** The sqlx error cases the handlers distinguish. A database-reported
      error carries the driver's SQLSTATE code, its message, and the
      display text of the whole sqlx error. */
  datatype SqlxError =
    | RowNotFound
    | Database(sqlState: Option<string>, driverMessage: string, display: string)
    | OtherSqlx

  datatype MyError =
    | Unauthorized
    | InternalError
    | NotFound
    | ValidationError(errors: ValidationErrors)
    | DatabaseError(cause: SqlxError)

  /** The `#[error(...)]` display text of each variant; the payload of a
      validation or database error does not show. */
  function Display(e: MyError): (text: string)
    ensures e.Unauthorized? ==> text == "unauthorized"
    ensures e.InternalError? ==> text == "internal error"
    ensures e.NotFound? ==> text == "not found"
    ensures e.ValidationError? ==> text == "validation error"
    ensures e.DatabaseError? ==> text == "database error"
  {
    match e
    case Unauthorized => "unauthorized"
    case InternalError => "internal error"
    case NotFound => "not found"
    case ValidationError(_) => "validation error"
    case DatabaseError(_) => "database error"
  }

  /** The status a variant stands for. Only a server-side failure is a 5xx;
      every other error is blamed on the client. */
  function StatusCode(e: MyError): (s: nat)
    ensures s == STATUS_INTERNAL_SERVER_ERROR <==> e.InternalError?
    ensures !e.InternalError? ==> 400 <= s < 500
    ensures s == STATUS_BAD_REQUEST <==> e.ValidationError? || e.DatabaseError?
  {
    match e
    case Unauthorized => STATUS_UNAUTHORIZED
    case InternalError => STATUS_INTERNAL_SERVER_ERROR
    case NotFound => STATUS_NOT_FOUND
    case ValidationError(_) => STATUS_BAD_REQUEST
    case DatabaseError(_) => STATUS_BAD_REQUEST
  }

  const UNIQUE_VIOLATION: string := "23505"

  /** The message shown for a database failure: the driver's own words for
      a unique-constraint violation, the error's display text for any
      other database-reported error, and a fixed text when the database
      itself reported nothing. */
  function DatabaseMessage(err: SqlxError): (m: string)
    ensures err.Database? && err.sqlState == Some(UNIQUE_VIOLATION) ==> m == err.driverMessage
    ensures err.Database? && err.sqlState != Some(UNIQUE_VIOLATION) ==> m == err.display
    ensures !err.Database? ==> m == "unknown database error"
  {
    match err
    case Database(state, driverMessage, display) =>
      if state == Some(UNIQUE_VIOLATION) then driverMessage else display
    case _ => "unknown database error"
  }

  /** The JSON body: validation failures carry an extra `errors` field, the
      general shape does not. Both constructors share `code` and `message`. */
  datatype ApiResponse =
    | ValidationBody(code: nat, message: string, errors: ValidationErrors)
    | GeneralBody(code: nat, message: string)

  /** The response sent for an error. The transport status is always 200;
      the error's status travels in the body's `code`. */
  function ErrorResponse(e: MyError): (r: HttpResponse<ApiResponse>)
    ensures r.status == STATUS_OK
    ensures r.body.code == StatusCode(e)
    ensures r.body.ValidationBody? <==> e.ValidationError?
    ensures e.ValidationError? ==> r.body.message == "validation error" && r.body.errors == e.errors
    ensures e.DatabaseError? ==> r.body.message == DatabaseMessage(e.cause)
    ensures e.Unauthorized? ==> r.body.message == "unauthorized"
    ensures e.InternalError? ==> r.body.message == "internal error"
    ensures e.NotFound? ==> r.body.message == "not found"
  {
    var body :=
      match e
      case ValidationError(errors) => ValidationBody(StatusCode(e), Display(e), errors)
      case DatabaseError(cause) => GeneralBody(StatusCode(e), DatabaseMessage(cause))
      case _ => GeneralBody(StatusCode(e), Display(e));
    HttpResponse(STATUS_OK, body)
  }

  /** Which variant an error is, without its payload. */
  datatype ErrorKind = UnauthorizedKind | InternalKind | NotFoundKind | ValidationKind | DatabaseKind

  function KindOf(e: MyError): ErrorKind {
    match e
    case Unauthorized => UnauthorizedKind
    case InternalError => InternalKind
    case NotFound => NotFoundKind
    case ValidationError(_) => ValidationKind
    case DatabaseError(_) => DatabaseKind
  }

  /** How a client reads an error body: the `errors` field marks a
      validation failure, and otherwise the code names the variant, 400
      being left to database failures. */
  function ReadErrorKind(body: ApiResponse): ErrorKind {
    if body.ValidationBody? then ValidationKind
    else if body.code == STATUS_UNAUTHORIZED then UnauthorizedKind
    else if body.code == STATUS_NOT_FOUND then NotFoundKind
    else if body.code == STATUS_BAD_REQUEST then DatabaseKind
    else InternalKind
  }

  /** The error response loses the payload but never the variant: reading
      the body back gives the kind of the error that produced it. */
  lemma ErrorResponseIdentifiesKind(e: MyError)
    ensures ReadErrorKind(ErrorResponse(e).body) == KindOf(e)
  {
  }

  /** The display text names the variant and nothing else: two errors
      read the same exactly when they are of the same kind. */
  lemma DisplayIdentifiesKind(e1: MyError, e2: MyError)
    ensures Display(e1) == Display(e2) <==> KindOf(e1) == KindOf(e2)
  {
  }

  /** The status of every variant, one by one. */
  lemma StatusCodeTable(errors: ValidationErrors, cause: SqlxError)
    ensures StatusCode(Unauthorized) == 401
    ensures StatusCode(InternalError) == 500
    ensures StatusCode(NotFound) == 404
    ensures StatusCode(ValidationError(errors)) == 400
    ensures StatusCode(DatabaseError(cause)) == 400
  {
  }
}
