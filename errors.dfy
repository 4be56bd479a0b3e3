/** src/middleware/errorHandler.ts: the tagged application error and the terminal handler
    that turns any error into a JSON failure response. */
module ErrorHandler {
  import opened Wrappers

  const InternalErrorMessage := "Error interno del servidor"

  /** An error as the handler receives it: one the application raised (carrying its own
      status), or anything else raised below it, such as a schema validation error or a
      unique-index violation from the store, which may or may not carry a `statusCode`. */
  datatype Failure =
    | AppError(message: string, statusCode: int, isOperational: bool)
    | OtherError(message: string, statusField: Option<int>)

  /** `new AppError(message, statusCode?, isOperational?)`: an omitted status is 500 and an
      omitted isOperational is true. */
  function NewAppError(message: string, statusCode: Option<int>, isOperational: Option<bool>): (e: Failure)
    ensures e.AppError? && e.message == message
    ensures e.statusCode == (if statusCode.Some? then statusCode.value else 500)
    ensures e.isOperational == (isOperational.None? || isOperational.value)
  {
    AppError(message, statusCode.GetOr(500), isOperational.GetOr(true))
  }

  /** The error a controller raises with `new AppError(message, status)`. */
  function Fail(message: string, status: int): Failure {
    NewAppError(message, Some(status), None)
  }

  /** The rebinding at the top of `errorHandler`: an AppError is kept; any other error becomes
      an AppError whose status is its own `statusCode` when that is truthy (present and not 0)
      and 500 otherwise, and whose message is its own when non-empty. */
  function Normalise(err: Failure): (e: Failure)
    ensures e.AppError?
    ensures err.AppError? ==> e == err
    ensures err.OtherError? ==>
      && e.statusCode == (if err.statusField.Some? && err.statusField.value != 0 then err.statusField.value else 500)
      && e.message == (if err.message != "" then err.message else InternalErrorMessage)
      && e.isOperational
  {
    match err
    case AppError(_, _, _) => err
    case OtherError(message, statusField) =>
      var status := if statusField.Some? && statusField.value != 0 then statusField.value else 500;
      NewAppError(if message != "" then message else InternalErrorMessage, Some(status), None)
  }

  /** The JSON body and status the handler sends; `detail` is the `stack`/`error` pair that is
      only added in development. */
  datatype ErrorResponse = ErrorResponse(status: int, success: bool, message: string, detail: Option<Failure>)

  function Handle(err: Failure, nodeEnv: string): (r: ErrorResponse)
    ensures !r.success
    ensures r.status == Normalise(err).statusCode && r.message == Normalise(err).message
    ensures r.detail.Some? <==> nodeEnv == "development"
    ensures r.detail.Some? ==> r.detail.value == Normalise(err)
  {
    var e := Normalise(err);
    ErrorResponse(e.statusCode, false, e.message, if nodeEnv == "development" then Some(e) else None)
  }

  /** Handling is indifferent to whether the error was normalised already: an AppError passes
      through with its own status and message, and a normalised error is handled alike. */
  lemma HandleNormalised(err: Failure, nodeEnv: string)
    ensures Handle(Normalise(err), nodeEnv) == Handle(err, nodeEnv)
    ensures err.AppError? ==>
      (Handle(err, nodeEnv).status == err.statusCode && Handle(err, nodeEnv).message == err.message)
  {
  }

  /** The handler never answers with status 0 or an empty message for an error that did not
      carry them itself: unknown failures are 500 with a fixed message. */
  lemma UnknownFailureIs500(message: string, nodeEnv: string)
    ensures Handle(OtherError(message, None), nodeEnv).status == 500
    ensures Handle(OtherError("", None), nodeEnv).message == InternalErrorMessage
  {
  }
}
