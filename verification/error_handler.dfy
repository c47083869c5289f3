/**
 * The error middleware (apps/api/src/middleware/errorHandler.ts): every
 * thrown value becomes an `ApiError` and then a response via `sendError`.
 */
module ErrorHandler {
  import opened Wrappers
  import opened Json
  import opened Http

  /**
   * What a handler can throw: an `ApiError`, a `ZodError` with its issue
   * list, or any other value (a database driver error is an object with a
   * `code` property).
   */
  datatype Thrown = ThrownApi(e: ApiError) | ThrownZod(issues: seq<Json>) | ThrownValue(v: Json)

  /** `isMysqlDuplicate`: a non-null object whose `code` is "ER_DUP_ENTRY". */
  predicate IsMysqlDuplicate(v: Json) {
    v.JObj? && Get(v.members, "code") == Some(JStr("ER_DUP_ENTRY"))
  }

  /** The `ApiError` a thrown value is reported as, tried in the handler's order. */
  function Classify(t: Thrown): (r: ApiError)
    ensures t.ThrownApi? ==> r == t.e
    ensures t.ThrownZod? ==>
      r.status == 400 && r.code == BadRequest && r.message == "Invalid request"
      && r.details == Some([("issues", JArr(t.issues))])
    ensures t.ThrownValue? && IsMysqlDuplicate(t.v) ==> r == Err(409, Conflict, "Already exists")
    ensures t.ThrownValue? && !IsMysqlDuplicate(t.v) ==> r == Err(500, Internal, "Internal server error")
  {
    match t
    case ThrownApi(e) => e
    case ThrownZod(issues) => ApiError(400, BadRequest, "Invalid request", Some([("issues", JArr(issues))]))
    case ThrownValue(v) =>
      if IsMysqlDuplicate(v) then Err(409, Conflict, "Already exists")
      else Err(500, Internal, "Internal server error")
  }

  /**
   * `errorHandler`: only an `ApiError` chooses its own status; anything else
   * is 400, 409 or 500, and an unexpected error never carries details.
   */
  function Handle(t: Thrown, requestId: Option<string>): (r: Response)
    ensures t.ThrownApi? ==> r.status == t.e.status
    ensures !t.ThrownApi? ==> r.status in {400, 409, 500}
    ensures ErrorField(r, "code") == Some(JStr(Classify(t).code.Name()))
    ensures t.ThrownValue? ==> ErrorField(r, "details").None?
    ensures t.ThrownZod? ==> ErrorField(r, "details") == Some(JObj([("issues", JArr(t.issues))]))
  {
    SendError(Classify(t), requestId)
  }

  /** A duplicate-key error from the driver is reported as 409 conflict. */
  lemma DuplicateIsConflict(message: string, requestId: Option<string>)
    ensures var r := Handle(ThrownValue(JObj([("code", JStr("ER_DUP_ENTRY")), ("message", JStr(message))])), requestId);
      r.status == 409 && ErrorField(r, "code") == Some(JStr("conflict"))
  {
    var members := [("code", JStr("ER_DUP_ENTRY")), ("message", JStr(message))];
    GetIsLast(members, "code", 0);
  }
}
