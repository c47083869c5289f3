/**
 * Errors the API raises and the JSON response `sendError` writes for
 * them (apps/api/src/http.ts).
 */
module Http {
  import opened Wrappers
  import opened Json

  datatype ErrorCode = BadRequest | Unauthorized | Forbidden | NotFound | Conflict | RateLimited | Internal {
    /** The wire name of the code. */
    function Name(): string {
      match this
      case BadRequest => "bad_request"
      case Unauthorized => "unauthorized"
      case Forbidden => "forbidden"
      case NotFound => "not_found"
      case Conflict => "conflict"
      case RateLimited => "rate_limited"
      case Internal => "internal"
    }
  }

  /** Distinct codes have distinct wire names, so a client can tell them apart. */
  lemma NamesDistinct(a: ErrorCode, b: ErrorCode)
    ensures a.Name() == b.Name() <==> a == b
  {
    if a != b {
      assert a.Name()[0] != b.Name()[0];
    }
  }

  /** An `ApiError`: HTTP status, code, message and an optional details object. */
  datatype ApiError = ApiError(status: int, code: ErrorCode, message: string, details: Option<seq<(string, Json)>>)

  function Err(status: int, code: ErrorCode, message: string): ApiError {
    ApiError(status, code, message, None)
  }

  /** What a handler step ends in: a value, or an error thrown to the error middleware. */
  datatype Outcome<T> = Ok(value: T) | Fail(err: ApiError)

  datatype Response = Response(status: int, body: Json)

  /** The `error` object of the body: code and message, and details only when the error has them. */
  function ErrorObject(err: ApiError): seq<(string, Json)> {
    [("code", JStr(err.code.Name())), ("message", JStr(err.message))]
      + (if err.details.Some? then [("details", JObj(err.details.value))] else [])
  }

  /** A top-level field of a response body. */
  function BodyField(r: Response, key: string): Option<Json> {
    if r.body.JObj? then Get(r.body.members, key) else None
  }

  /** A field of the body's `error` object. */
  function ErrorField(r: Response, key: string): Option<Json> {
    match BodyField(r, "error")
    case Some(JObj(e)) => Get(e, key)
    case _ => None
  }

  /** `sendError`: a request id is added to the body only when it is a non-empty string. */
  function SendError(err: ApiError, requestId: Option<string>): (r: Response)
    ensures r.status == err.status
    ensures r.body.JObj? && BodyField(r, "error").Some? && BodyField(r, "error").value.JObj?
    ensures ErrorField(r, "code") == Some(JStr(err.code.Name()))
    ensures ErrorField(r, "message") == Some(JStr(err.message))
    ensures ErrorField(r, "details").Some? <==> err.details.Some?
    ensures err.details.Some? ==> ErrorField(r, "details") == Some(JObj(err.details.value))
    ensures BodyField(r, "request_id").Some? <==> requestId.Some? && requestId.value != ""
    ensures requestId.Some? && requestId.value != "" ==> BodyField(r, "request_id") == Some(JStr(requestId.value))
    ensures forall i :: 0 <= i < |r.body.members| ==> r.body.members[i].0 in {"error", "request_id"}
  {
    var e := ErrorObject(err);
    assert Get(e, "code") == Some(JStr(err.code.Name())) by {
      GetIsLast(e, "code", 0);
    }
    assert Get(e, "message") == Some(JStr(err.message)) by {
      GetIsLast(e, "message", 1);
    }
    var body := [("error", JObj(e))] + (if requestId.Some? && requestId.value != "" then [("request_id", JStr(requestId.value))] else []);
    assert Get(body, "error") == Some(JObj(e)) by {
      GetIsLast(body, "error", 0);
    }
    Response(err.status, JObj(body))
  }
}
