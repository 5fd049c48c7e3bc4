/**
 * AllExceptionsFilter: the global filter that turns whatever a handler
 * throws into an HTTP status and a JSON body. Its branches are tried in
 * order: a missing entity, a unique violation reported by Postgres, a
 * payload that is too large, any other HTTP exception (passed through as
 * it is), and everything else as a 500.
 */
module ExceptionFilter {
  import opened Common

  /** A JSON value, as written to the response. */
  datatype Json =
    | JNull
    | JNum(n: int)
    | JStr(s: string)
    | JObj(fields: seq<(string, Json)>)

  /** A JavaScript value the driver may put in a property of its error. */
  datatype JsField = FStr(s: string) | FNum(n: int) | FNull | FUndefined

  /**
   * QueryFailedError.driverError. `Obj` is an object; `code` and `detail`
   * are None when the object has no such property at all.
   */
  datatype DriverError =
    | DNull
    | DUndefined
    | DPrimitive
    | Obj(code: Option<JsField>, detail: Option<JsField>)

  /**
   * What a handler throws. `Http` is an HttpException: its status, the body
   * getResponse() gives, and whether it is a PayloadTooLargeException.
   */
  datatype Exception =
    | EntityNotFound
    | QueryFailed(driverError: DriverError)
    | Http(status: int, body: Json, tooLarge: bool)
    | Other

  datatype Response = Response(status: int, body: Json)

  const NOT_FOUND := 404
  const CONFLICT := 409
  const PAYLOAD_TOO_LARGE := 413
  const INTERNAL_SERVER_ERROR := 500
  const UniqueViolation := "23505"

  /** isPostgresDriverError: a non-null object with a `code` or a `detail` property. */
  predicate IsPostgresDriverError(e: DriverError) {
    e.Obj? && (e.code.Some? || e.detail.Some?)
  }

  /** `original.detail ?? null`: the detail, or null when it is missing, undefined or null. */
  function DetailOrNull(detail: Option<JsField>): (j: Json)
    ensures detail.None? ==> j == JNull
    ensures detail.Some? && detail.value.FStr? ==> j == JStr(detail.value.s)
    ensures detail.Some? && detail.value.FNum? ==> j == JNum(detail.value.n)
    ensures detail.Some? && (detail.value.FNull? || detail.value.FUndefined?) ==> j == JNull
  {
    if detail.None? then JNull
    else match detail.value
      case FStr(s) => JStr(s)
      case FNum(n) => JNum(n)
      case FNull => JNull
      case FUndefined => JNull
  }

  /** A query failure whose driver error carries the code 23505 as a string. */
  predicate IsDuplicate(e: Exception) {
    e.QueryFailed? && IsPostgresDriverError(e.driverError) && e.driverError.code == Some(FStr(UniqueViolation))
  }

  function Plain(status: int, message: string): Json {
    JObj([("statusCode", JNum(status)), ("message", JStr(message))])
  }

  /** catch: the response written for an exception. */
  function Catch(e: Exception): (r: Response)
    ensures e.EntityNotFound? ==> r == Response(NOT_FOUND, Plain(NOT_FOUND, "Entity not found"))
    ensures IsDuplicate(e) ==> r == Response(CONFLICT, JObj([
      ("statusCode", JNum(CONFLICT)), ("message", JStr("Duplicate entry")),
      ("detail", DetailOrNull(e.driverError.detail))]))
    ensures e.QueryFailed? && !IsDuplicate(e) ==>
      r == Response(INTERNAL_SERVER_ERROR, Plain(INTERNAL_SERVER_ERROR, "Internal server error"))
    ensures e.Http? && e.tooLarge ==> r == Response(PAYLOAD_TOO_LARGE, Plain(PAYLOAD_TOO_LARGE, "File too large"))
    ensures e.Http? && !e.tooLarge ==> r == Response(e.status, e.body)
    ensures e.Other? ==> r == Response(INTERNAL_SERVER_ERROR, Plain(INTERNAL_SERVER_ERROR, "Internal server error"))
  {
    if e.EntityNotFound? then
      Response(NOT_FOUND, Plain(NOT_FOUND, "Entity not found"))
    else if e.QueryFailed? && IsPostgresDriverError(e.driverError) && e.driverError.code == Some(FStr(UniqueViolation)) then
      Response(CONFLICT, JObj([
        ("statusCode", JNum(CONFLICT)), ("message", JStr("Duplicate entry")),
        ("detail", DetailOrNull(e.driverError.detail))]))
    else if e.Http? && e.tooLarge then
      Response(PAYLOAD_TOO_LARGE, Plain(PAYLOAD_TOO_LARGE, "File too large"))
    else if e.Http? then
      Response(e.status, e.body)
    else
      Response(INTERNAL_SERVER_ERROR, Plain(INTERNAL_SERVER_ERROR, "Internal server error"))
  }

  /** Outside HttpExceptions, 409 is the answer to a unique violation and to nothing else. */
  lemma ConflictOnlyForUniqueViolation(e: Exception)
    requires !e.Http?
    ensures Catch(e).status == CONFLICT <==> IsDuplicate(e)
    ensures Catch(e).status in {NOT_FOUND, CONFLICT, INTERNAL_SERVER_ERROR}
  {
  }

  /** Every body the filter writes itself starts with a statusCode equal to the status sent. */
  lemma BodyCarriesStatus(e: Exception)
    requires !(e.Http? && !e.tooLarge)
    ensures Catch(e).body.JObj? && |Catch(e).body.fields| >= 2
    ensures Catch(e).body.fields[0] == ("statusCode", JNum(Catch(e).status))
    ensures Catch(e).body.fields[1].0 == "message"
  {
  }

  /** Any other driver code, a code given as a number, or a driver error that is no object, is a 500. */
  lemma OtherQueryFailuresAre500(code: JsField, detail: Option<JsField>)
    requires code != FStr(UniqueViolation)
    ensures Catch(QueryFailed(Obj(Some(code), detail))).status == INTERNAL_SERVER_ERROR
    ensures Catch(QueryFailed(DNull)).status == INTERNAL_SERVER_ERROR
    ensures Catch(QueryFailed(Obj(None, detail))).status == INTERNAL_SERVER_ERROR
  {
  }

  // ---- the services' errors, as Nest exceptions ----

  /** The status and the standard error phrase of each Nest exception class the services use. */
  function StatusOf(e: Error): (s: int)
    requires !e.Internal?
  {
    match e
      case NotFound(_) => 404
      case Forbidden(_) => 403
      case BadRequest(_) => 400
      case Conflict(_) => 409
      case Unauthorized(_) => 401
  }

  function Phrase(e: Error): string
    requires !e.Internal?
  {
    match e
      case NotFound(_) => "Not Found"
      case Forbidden(_) => "Forbidden"
      case BadRequest(_) => "Bad Request"
      case Conflict(_) => "Conflict"
      case Unauthorized(_) => "Unauthorized"
  }

  /**
   * What a service's error is when it reaches the filter: a Nest exception
   * built from a message (body: message, error phrase, status), or a
   * runtime error, which is no HttpException at all.
   */
  function Thrown(e: Error): (x: Exception)
    ensures e.Internal? <==> x.Other?
    ensures !e.Internal? ==> x.Http? && !x.tooLarge && x.status == StatusOf(e)
  {
    if e.Internal? then Other
    else Http(StatusOf(e), JObj([("message", JStr(e.reason)), ("error", JStr(Phrase(e))),
                                 ("statusCode", JNum(StatusOf(e)))]), false)
  }

  /**
   * Every error a service throws reaches the client with its own status and
   * its own message; a runtime error becomes a bare 500 that shows nothing
   * of its message.
   */
  lemma {:induction false} ServiceErrorsReachClient(e: Error)
    ensures !e.Internal? ==>
      (Catch(Thrown(e)).status == StatusOf(e)
       && Catch(Thrown(e)).body.JObj? && ("message", JStr(e.reason)) in Catch(Thrown(e)).body.fields)
    ensures e.Internal? ==> Catch(Thrown(e)) == Response(INTERNAL_SERVER_ERROR, Plain(INTERNAL_SERVER_ERROR, "Internal server error"))
  {
    if !e.Internal? {
      var fields := [("message", JStr(e.reason)), ("error", JStr(Phrase(e))), ("statusCode", JNum(StatusOf(e)))];
      assert fields[0] == ("message", JStr(e.reason));
    }
  }
}
