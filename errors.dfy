/** The server's error vocabulary and its last-resort error handler: the
    `ErrorCodes` constants, the `AppError` family with their fixed status
    codes, the duplicate-key test for database errors, and `errorHandler`,
    which turns anything thrown by a request handler into an HTTP status, an
    error code and a message. */
module Errors {
  import opened Wrappers

  /** The members of `ErrorCodes`. */
  datatype ErrorCode =
    | AuthUnauthorized
    | AuthInvalidToken
    | AuthForbidden
    | ValFailed
    | ResNotFound
    | ResConflict
    | SysInternalError
  {
    /** The string sent to the client. */
    function Wire(): string {
      match this
      case AuthUnauthorized => "AUTH_001"
      case AuthInvalidToken => "AUTH_002"
      case AuthForbidden => "AUTH_003"
      case ValFailed => "VAL_001"
      case ResNotFound => "RES_001"
      case ResConflict => "RES_002"
      case SysInternalError => "SYS_001"
    }
  }

  /** The HTTP status each error code travels with: the status of the error
      class that uses the code by default, and for the two codes no class
      uses, the status the handler sends them with (AUTH_002) or the one its
      name stands for (AUTH_003). */
  function StatusFor(c: ErrorCode): int {
    match c
    case AuthUnauthorized => 401
    case AuthInvalidToken => 401
    case AuthForbidden => 403
    case ValFailed => 400
    case ResNotFound => 404
    case ResConflict => 409
    case SysInternalError => 500
  }

  /** An `AppError`. `errorCode` is `None` when the class's default code is
      a member `ErrorCodes` does not define, which evaluates to `undefined`. */
  datatype AppError = AppError(message: string, statusCode: int, errorCode: Option<ErrorCode>)

  /** `BadRequestError` defaults to `ErrorCodes.VAL_BAD_REQUEST`, which is
      not defined, so its code is absent. */
  function BadRequestError(message: string): AppError {
    AppError(message, 400, None)
  }

  function UnauthorizedError(message: string): AppError {
    AppError(message, 401, Some(AuthUnauthorized))
  }

  function ConflictError(message: string): AppError {
    AppError(message, 409, Some(ResConflict))
  }

  function NotFoundError(message: string): AppError {
    AppError(message, 404, Some(ResNotFound))
  }

  function InternalServerError(message: string): AppError {
    AppError(message, 500, Some(SysInternalError))
  }

  /** A `code` property of a thrown value: absent, a number, or some other
      kind of value. */
  datatype CodeField = NoCode | NumericCode(n: int) | NonNumericCode

  /** Anything a handler can throw, as far as `errorHandler` tells apart. */
  datatype Thrown =
    | App(app: AppError)
    | Zod(issues: seq<string>)              // the messages of a ZodError's issues
    | JsonWebToken                          // jsonwebtoken's JsonWebTokenError
    | TokenExpired                          // jsonwebtoken's TokenExpiredError
    | Other(isObject: bool, code: CodeField)  // anything else; `isObject` is false for null and primitives

  /** `isMongoDuplicateError`: a non-null object whose `code` is the number 11000. */
  predicate IsMongoDuplicateError(t: Thrown) {
    t.Other? && t.isObject && t.code == NumericCode(11000)
  }

  /** The JSON body's status, `errorCode` and message. */
  datatype ErrorResponse = ErrorResponse(status: int, code: Option<ErrorCode>, message: string)

  /** The message of a validation failure: the first issue's message, unless
      there is none or it is empty. */
  function ZodMessage(issues: seq<string>): (m: string)
    ensures m != ""
    ensures issues != [] && issues[0] != "" ==> m == issues[0]
  {
    if issues != [] && issues[0] != "" then issues[0] else "Validation failed"
  }

  /** `errorHandler`: an ordered chain of tests, the first that applies decides. */
  function ErrorHandler(err: Thrown): (r: ErrorResponse)
    // an application error speaks for itself, whatever else it might match
    ensures err.App? ==> r == ErrorResponse(err.app.statusCode, err.app.errorCode, err.app.message)
    // every other answer carries a defined code, with the status that code goes with
    ensures !err.App? ==> r.code.Some? && r.status == StatusFor(r.code.value)
    ensures err.Zod? ==> r.code == Some(ValFailed) && r.message == ZodMessage(err.issues)
    ensures !err.App? ==> ((err.JsonWebToken? || err.TokenExpired?) <==> r.code == Some(AuthInvalidToken))
    ensures !err.App? ==> (IsMongoDuplicateError(err) <==> r.code == Some(ResConflict))
    ensures !err.App? ==> (err.Other? && !IsMongoDuplicateError(err) <==> r.status == 500)
    ensures r.status == 500 && !err.App? ==> r.message == "Internal server error"
  {
    match err
    case App(e) => ErrorResponse(e.statusCode, e.errorCode, e.message)
    case Zod(issues) => ErrorResponse(400, Some(ValFailed), ZodMessage(issues))
    case JsonWebToken => ErrorResponse(401, Some(AuthInvalidToken), "Invalid or expired token")
    case TokenExpired => ErrorResponse(401, Some(AuthInvalidToken), "Invalid or expired token")
    case Other(_, _) =>
      if IsMongoDuplicateError(err) then ErrorResponse(409, Some(ResConflict), "Resource conflict")
      else ErrorResponse(500, Some(SysInternalError), "Internal server error")
  }

  /** The error classes that carry a defined default code are answered with
      the status that code goes with, so the handler's own answers and the
      classes' answers agree. */
  lemma {:induction false} ClassesAgreeWithCodes(message: string)
    ensures var rs := [ErrorHandler(App(UnauthorizedError(message))), ErrorHandler(App(ConflictError(message))),
                       ErrorHandler(App(NotFoundError(message))), ErrorHandler(App(InternalServerError(message)))];
            forall i | 0 <= i < |rs| :: rs[i].code.Some? && rs[i].status == StatusFor(rs[i].code.value)
    ensures ErrorHandler(App(BadRequestError(message))) == ErrorResponse(400, None, message)
  {
  }

  /** Different error codes are sent as different strings. */
  lemma {:induction false} WireInjective(a: ErrorCode, b: ErrorCode)
    ensures a.Wire() == b.Wire() ==> a == b
  {
  }
}
