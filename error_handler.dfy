/**
 * The error middleware: the `ApiError` class, the not-found handler and the
 * global handler that turns any error into the JSON error envelope.  The
 * current time (already rendered by `toISOString`), the value of `NODE_ENV`
 * and the stack trace captured by the runtime are inputs.
 */
module ErrorHandler {
  import opened Wrappers

  /** A JavaScript value, as far as truthiness and copying into JSON need it. */
  datatype JsValue =
    | Undefined
    | Null
    | Bool(b: bool)
    | Number(n: int)
    | Str(s: string)
    | Array(elements: seq<JsValue>)
    | Object(entries: seq<(string, JsValue)>)

  /** JavaScript truthiness: `undefined`, `null`, `false`, `0` and `""` are falsy. */
  predicate Truthy(v: JsValue) {
    match v
    case Undefined => false
    case Null => false
    case Bool(b) => b
    case Number(n) => n != 0
    case Str(s) => s != ""
    case Array(_) => true
    case Object(_) => true
  }

  /** An `Error` that carries an HTTP status code and optional validation errors. */
  class ApiError {
    var statusCode: int
    var message: string
    var errors: JsValue
    var stack: string

    /** `new ApiError(statusCode, message, errors)`; an omitted `errors` is `Undefined`. */
    constructor (statusCode: int, message: string, errors: JsValue, stack: string)
      ensures this.statusCode == statusCode && this.message == message
      ensures this.errors == errors && this.stack == stack
    {
      this.message := message;
      this.stack := stack;
      this.statusCode := statusCode;
      this.errors := errors;
    }
  }

  /** What reaches the global handler: an `ApiError` or any other `Error`. */
  datatype Thrown =
    | ApiErr(error: ApiError)
    | PlainError(message: string, stack: string)

  /** The JSON error envelope; `None` marks a property that is not set. */
  datatype ErrorResponse = ErrorResponse(
    status: int,
    message: string,
    stack: Option<string>,
    errors: Option<JsValue>,
    timestamp: string,
    path: string)

  const InternalServerError := "Internal Server Error"
  const Development := "development"

  function NotFoundMessage(originalUrl: string): string {
    "Resource not found - " + originalUrl
  }

  /** The error the not-found handler passes on for an unmatched route. */
  method NotFoundHandler(originalUrl: string, stack: string) returns (error: ApiError)
    ensures fresh(error)
    ensures error.statusCode == 404 && error.message == NotFoundMessage(originalUrl)
    ensures error.errors == Undefined && error.stack == stack
  {
    error := new ApiError(404, NotFoundMessage(originalUrl), Undefined, stack);
  }

  /**
   * The global handler: builds the envelope and returns it with the HTTP
   * status it is sent with.
   */
  method GlobalErrorHandler(err: Thrown, originalUrl: string, nodeEnv: Option<string>, now: string)
    returns (httpStatus: int, response: ErrorResponse)
    ensures httpStatus == response.status
    ensures err.ApiErr? ==> response.status == err.error.statusCode
    ensures err.PlainError? ==> response.status == 500
    ensures var message := if err.ApiErr? then err.error.message else err.message;
            response.message == if message == "" then InternalServerError else message
    ensures response.path == originalUrl && response.timestamp == now
    ensures response.stack.Some? <==> nodeEnv == Some(Development)
    ensures response.stack.Some? ==> response.stack.value == if err.ApiErr? then err.error.stack else err.stack
    ensures response.errors.Some? <==> err.ApiErr? && Truthy(err.error.errors)
    ensures response.errors.Some? ==> response.errors.value == err.error.errors
  {
    var statusCode, errors, message, stack;
    match err {
      case ApiErr(e) =>
        statusCode, errors, message, stack := e.statusCode, e.errors, e.message, e.stack;
      case PlainError(m, s) =>
        statusCode, errors, message, stack := 500, Undefined, m, s;
    }
    response := ErrorResponse(
      statusCode, if message == "" then InternalServerError else message, None, None, now, originalUrl);
    if nodeEnv == Some(Development) {
      response := response.(stack := Some(stack));
    }
    if Truthy(errors) {
      response := response.(errors := Some(errors));
    }
    httpStatus := statusCode;
  }

  /** An unmatched route, handed by the not-found handler to the global handler. */
  method RespondNotFound(originalUrl: string, stack: string, nodeEnv: Option<string>, now: string)
    returns (httpStatus: int, response: ErrorResponse)
    ensures httpStatus == 404 && response.status == 404
    ensures response.message == NotFoundMessage(originalUrl)
    ensures response.path == originalUrl && response.timestamp == now
    ensures response.errors == None
    ensures response.stack == if nodeEnv == Some(Development) then Some(stack) else None
  {
    var error := NotFoundHandler(originalUrl, stack);
    httpStatus, response := GlobalErrorHandler(ApiErr(error), originalUrl, nodeEnv, now);
  }
}
