/**
 * The agent SDK's HTTP client (`MoltbookClient`): how a call becomes a
 * request (URL joining, query string, headers) and how a reply becomes a
 * result or an error. The network is a parameter: a call is turned into a
 * `Request`, and the server's `Reply` is turned into an `Outcome`.
 */
module Client {
  import opened Wrappers
  import opened Text
  import opened Json
  import opened Records
  import Http
  import JsNumber

  /** The base used when the options give none. */
  const DefaultApiBase: string := "http://localhost:3001/api/v1"

  const JsonType: string := "application/json"

  // ------------------------------------------------------------ URLs

  /** `joinUrl`: the base without trailing slashes, one slash, the path without leading slashes. */
  function JoinUrl(base: string, path: string): (r: string)
    ensures |r| == |StripTrailing(base, '/')| + 1 + |StripLeading(path, '/')|
  {
    StripTrailing(base, '/') + "/" + StripLeading(path, '/')
  }

  /** Between a base and a path that carry no slash at the join, exactly one slash is put. */
  lemma JoinUrlClean(base: string, path: string)
    requires |base| == 0 || base[|base| - 1] != '/'
    requires |path| == 0 || path[0] != '/'
    ensures JoinUrl(base, path) == base + "/" + path
  {
    TrailingRunIs(base, '/', 0);
    LeadingRunIs(path, '/', 0);
    assert base[..|base|] == base;
    assert path[0..] == path;
  }

  /** Slashes at the join, however many on either side, make no difference. */
  lemma JoinUrlIgnoresSlashes(base: string, path: string, m: nat, n: nat)
    ensures JoinUrl(base + Repeat('/', m), Repeat('/', n) + path) == JoinUrl(base, path)
  {
    StripTrailingRun(base, '/', m);
    StripLeadingRun(path, '/', n);
  }

  // ------------------------------------------------------------ query string

  /** A query value: a string, or an integer that `String(v)` writes in decimal. */
  datatype QueryValue = QStr(s: string) | QInt(n: int)

  /** `String(v)` */
  function Show(v: QueryValue): string {
    match v
    case QStr(s) => s
    case QInt(n) => if n >= 0 then JsNumber.NatToString(n) else "-" + JsNumber.NatToString(-n)
  }

  /** The query loop: `searchParams.set(k, String(v))` for each entry in order, skipping undefined values. */
  function SearchParams(query: Record<Option<QueryValue>>): (r: Record<string>)
    ensures UniqueKeys(r)
  {
    if |query| == 0 then []
    else
      var n := |query| - 1;
      var init := SearchParams(query[..n]);
      AssignUnique(init, query[n].0, "");
      match query[n].1
      case None => init
      case Some(v) =>
        AssignUnique(init, query[n].0, Show(v));
        Assign(init, query[n].0, Show(v))
  }

  /** The entries with a defined value, stringified, in order: what the loop should leave. */
  function Defined(query: Record<Option<QueryValue>>): (r: Record<string>)
    ensures forall k :: !HasKey(query, k) ==> !HasKey(r, k)
  {
    if |query| == 0 then []
    else
      var n := |query| - 1;
      var init := Defined(query[..n]);
      assert forall k :: !HasKey(query, k) ==> !HasKey(query[..n], k);
      init + (if query[n].1.Some? then [(query[n].0, Show(query[n].1.value))] else [])
  }

  /** For an object's entries (distinct keys), the query is exactly its defined entries, stringified, in order. */
  lemma {:induction false} SearchParamsAreDefined(query: Record<Option<QueryValue>>)
    requires UniqueKeys(query)
    ensures SearchParams(query) == Defined(query)
    decreases |query|
  {
    if |query| > 0 {
      var n := |query| - 1;
      var init := query[..n];
      assert UniqueKeys(init);
      SearchParamsAreDefined(init);
      if query[n].1.Some? {
        assert !HasKey(init, query[n].0);
        assert !HasKey(SearchParams(init), query[n].0);
        assert KeyIndex(SearchParams(init), query[n].0).None?;
      }
    }
  }

  /** The value of the last entry for `k` whose value is defined, stringified. */
  function LastDefined(query: Record<Option<QueryValue>>, k: string): Option<string> {
    if |query| == 0 then None
    else
      var n := |query| - 1;
      if query[n].0 == k && query[n].1.Some? then Some(Show(query[n].1.value)) else LastDefined(query[..n], k)
  }

  /** A key reads the last defined value given for it, and is absent when it has none. */
  lemma {:induction false} SearchParamsLookup(query: Record<Option<QueryValue>>, k: string)
    ensures Lookup(SearchParams(query), k) == LastDefined(query, k)
    decreases |query|
  {
    if |query| > 0 {
      var n := |query| - 1;
      SearchParamsLookup(query[..n], k);
      if query[n].1.Some? {
        AssignLookup(SearchParams(query[..n]), query[n].0, Show(query[n].1.value), k);
      }
    }
  }

  // ------------------------------------------------------------ requests

  datatype Options = Options(apiKey: string, apiBase: Option<string>, userAgent: Option<string>)

  datatype Client = Client(apiBase: string, apiKey: string, userAgent: Option<string>)

  /** `new MoltbookClient(opts)` */
  function NewClient(o: Options): (r: Client)
    ensures o.apiBase.None? ==> r.apiBase == DefaultApiBase
    ensures o.apiBase.Some? ==> r.apiBase == o.apiBase.value
    ensures r.apiKey == o.apiKey && r.userAgent == o.userAgent
  {
    Client(o.apiBase.GetOr(DefaultApiBase), o.apiKey, o.userAgent)
  }

  datatype Request = Request(verb: string, url: string, query: Record<string>, headers: Record<string>, body: Option<Json>)

  /** The request headers: the bearer key, the user agent when non-empty, the JSON type when there is a body. */
  function Headers(c: Client, hasBody: bool): (r: Record<string>)
  {
    [("Authorization", "Bearer " + c.apiKey)]
      + (if c.userAgent.Some? && c.userAgent.value != "" then [("User-Agent", c.userAgent.value)] else [])
      + (if hasBody then [("Content-Type", JsonType)] else [])
  }

  /** What each header reads: the JSON content type exactly when a body is sent, the user agent exactly when it is non-empty. */
  lemma HeadersRead(c: Client, hasBody: bool)
    ensures var h := Headers(c, hasBody);
      && UniqueKeys(h)
      && Lookup(h, "Authorization") == Some("Bearer " + c.apiKey)
      && Lookup(h, "Content-Type") == (if hasBody then Some(JsonType) else None)
      && Lookup(h, "User-Agent") == (if c.userAgent.Some? && c.userAgent.value != "" then c.userAgent else None)
  {
    var h := Headers(c, hasBody);
    KeyIndexIs(h, "Authorization", 0);
    if c.userAgent.Some? && c.userAgent.value != "" {
      KeyIndexIs(h, "User-Agent", 1);
      if hasBody {
        KeyIndexIs(h, "Content-Type", 2);
      }
    } else if hasBody {
      KeyIndexIs(h, "Content-Type", 1);
    }
  }

  /** The request `request(method, path, body, query)` sends, `verb` being its method. */
  function BuildRequest(c: Client, verb: string, path: string, body: Option<Json>, query: Record<Option<QueryValue>>): Request
  {
    Request(verb, JoinUrl(c.apiBase, path), SearchParams(query), Headers(c, body.Some?), body)
  }

  /** The calls the client offers; ids are given already percent-encoded. */
  datatype Call =
    | GetMe
    | Status
    | ListFeed(sort: Option<string>, limit: Option<int>, cursor: Option<string>)
    | CreatePost(post: Json)
    | Comment(encodedPostId: string, comment: Json)
    | UpvotePost(encodedPostId: string)
    | DownvotePost(encodedPostId: string)
    | UpvoteComment(encodedCommentId: string)
    | DmCheck

  function OptStr(v: Option<string>): Option<QueryValue> {
    if v.Some? then Some(QStr(v.value)) else None
  }

  function OptInt(v: Option<int>): Option<QueryValue> {
    if v.Some? then Some(QInt(v.value)) else None
  }

  /** The request each call makes. */
  function CallRequest(c: Client, call: Call): (r: Request)
    ensures r.body.Some? <==> call.CreatePost? || call.Comment?
    ensures r.verb == (if call.GetMe? || call.Status? || call.ListFeed? || call.DmCheck? then "GET" else "POST")
  {
    match call
    case GetMe => BuildRequest(c, "GET", "/agents/me", None, [])
    case Status => BuildRequest(c, "GET", "/agents/status", None, [])
    case ListFeed(sort, limit, cursor) =>
      BuildRequest(c, "GET", "/feed", None, FeedQuery(sort, limit, cursor))
    case CreatePost(post) => BuildRequest(c, "POST", "/posts", Some(post), [])
    case Comment(id, comment) => BuildRequest(c, "POST", "/posts/" + id + "/comments", Some(comment), [])
    case UpvotePost(id) => BuildRequest(c, "POST", "/posts/" + id + "/upvote", None, [])
    case DownvotePost(id) => BuildRequest(c, "POST", "/posts/" + id + "/downvote", None, [])
    case UpvoteComment(id) => BuildRequest(c, "POST", "/comments/" + id + "/upvote", None, [])
    case DmCheck => BuildRequest(c, "GET", "/agents/dm/check", None, [])
  }

  /** The feed listing's query entries. */
  function FeedQuery(sort: Option<string>, limit: Option<int>, cursor: Option<string>): Record<Option<QueryValue>> {
    [("sort", OptStr(sort)), ("limit", OptInt(limit)), ("cursor", OptStr(cursor))]
  }

  /** A feed listing asks for exactly the options given, and the URL is the base's `/feed`. */
  lemma ListFeedRequest(c: Client, sort: Option<string>, limit: Option<int>, cursor: Option<string>)
    requires |c.apiBase| == 0 || c.apiBase[|c.apiBase| - 1] != '/'
    ensures var r := CallRequest(c, ListFeed(sort, limit, cursor));
      && r.url == c.apiBase + "/feed"
      && Lookup(r.query, "sort") == sort
      && Lookup(r.query, "cursor") == cursor
      && Lookup(r.query, "limit") == (if limit.Some? then Some(Show(QInt(limit.value))) else None)
  {
    var q := FeedQuery(sort, limit, cursor);
    assert CallRequest(c, ListFeed(sort, limit, cursor)) == BuildRequest(c, "GET", "/feed", None, q);
    FeedUrl(c.apiBase);
    SearchParamsLookup(q, "sort");
    SearchParamsLookup(q, "limit");
    SearchParamsLookup(q, "cursor");
    FeedQueryValues(sort, limit, cursor);
  }

  lemma FeedUrl(base: string)
    requires |base| == 0 || base[|base| - 1] != '/'
    ensures JoinUrl(base, "/feed") == base + "/feed"
  {
    JoinUrlIgnoresSlashes(base, "feed", 0, 1);
    assert base + Repeat('/', 0) == base;
    assert Repeat('/', 1) + "feed" == "/feed";
    JoinUrlClean(base, "feed");
  }

  lemma FeedQueryValues(sort: Option<string>, limit: Option<int>, cursor: Option<string>)
    ensures var q := FeedQuery(sort, limit, cursor);
      && LastDefined(q, "sort") == sort
      && LastDefined(q, "cursor") == cursor
      && LastDefined(q, "limit") == (if limit.Some? then Some(Show(QInt(limit.value))) else None)
  {
    var q := FeedQuery(sort, limit, cursor);
    var q2 := [("sort", OptStr(sort)), ("limit", OptInt(limit))];
    var q1 := [("sort", OptStr(sort))];
    assert q[..2] == q2 && q2[..1] == q1 && q1[..0] == [];
    assert |"sort"| == 4 && |"limit"| == 5 && |"cursor"| == 6;
    assert LastDefined(q1, "limit") == None && LastDefined(q1, "cursor") == None;
    assert LastDefined(q2, "cursor") == None;
    assert LastDefined(q1, "sort") == sort;
    assert LastDefined(q2, "sort") == sort;
    assert LastDefined(q2, "limit") == (if limit.Some? then Some(Show(QInt(limit.value))) else None);
  }

  // ------------------------------------------------------------ replies

  /** What the server answered: status, content type and body text. */
  datatype Reply = Reply(status: nat, contentType: Option<string>, text: string)

  /** The error the client throws (`MoltbookApiError`); fields are the body's JSON values as found. */
  datatype ApiError = ApiError(status: nat, code: Option<Json>, message: Json, details: Option<Json>, requestId: Option<Json>)

  datatype Outcome =
    | JsonBody(value: Json)
    | TextBody(text: string)
    | Failed(error: ApiError)
    | Malformed  // a JSON-typed success whose body does not parse: `res.json()` throws

  predicate IsJsonType(contentType: Option<string>) {
    Contains(contentType.GetOr(""), JsonType)
  }

  /** `readErrorBody`: the parsed body when the reply says it is JSON; nothing otherwise or when it does not parse. */
  function ReadErrorBody(reply: Reply): (r: Option<Json>)
    ensures r.Some? <==> IsJsonType(reply.contentType) && Parse(reply.text).Some?
    ensures r.Some? ==> r == Parse(reply.text)
  {
    if !IsJsonType(reply.contentType) then None else Parse(reply.text)
  }

  /** `v?.key`: a property of an object; absent for anything else, `null` included. */
  function Member(v: Option<Json>, key: string): Option<Json> {
    match v
    case Some(JObj(ms)) => Get(ms, key)
    case _ => None
  }

  /** `"HTTP " + status` */
  function Fallback(status: nat): string {
    "HTTP " + JsNumber.NatToString(status)
  }

  /** The error for a failed reply: the body's `error` fields, the message falling back to `HTTP <status>`. */
  function ErrorOf(reply: Reply): (r: ApiError)
    ensures r.status == reply.status
    ensures var m := Member(Member(ReadErrorBody(reply), "error"), "message");
      && (m.None? || m == Some(JNull) ==> r.message == JStr(Fallback(reply.status)))
      && (m.Some? && m != Some(JNull) ==> r.message == m.value)
  {
    var body := ReadErrorBody(reply);
    var e := Member(body, "error");
    var m := Member(e, "message");
    ApiError(reply.status, Member(e, "code"),
      if m.None? || m == Some(JNull) then JStr(Fallback(reply.status)) else m.value,
      Member(e, "details"), Member(body, "request_id"))
  }

  /** `res.ok` */
  predicate Ok(status: nat) {
    200 <= status <= 299
  }

  /** The result of `request` for a reply. */
  function Receive(reply: Reply): (r: Outcome)
    ensures r.Failed? <==> !Ok(reply.status)
    ensures r.Malformed? <==> Ok(reply.status) && IsJsonType(reply.contentType) && Parse(reply.text).None?
    ensures r.TextBody? ==> r.text == reply.text && !IsJsonType(reply.contentType)
    ensures r.JsonBody? ==> Parse(reply.text) == Some(r.value)
  {
    if !Ok(reply.status) then Failed(ErrorOf(reply))
    else if IsJsonType(reply.contentType) then
      match Parse(reply.text)
      case Some(j) => JsonBody(j)
      case None => Malformed
    else TextBody(reply.text)
  }

  /** A failed reply without a JSON body reports `HTTP <status>` and nothing else. */
  lemma PlainFailureFallsBack(reply: Reply)
    requires !Ok(reply.status) && !IsJsonType(reply.contentType)
    ensures Receive(reply) == Failed(ApiError(reply.status, None, JStr(Fallback(reply.status)), None, None))
  {
  }

  /**
   * An error the API's error handler sends comes back to the client intact:
   * status, code, message, details and request id, whatever text the
   * server's body is written as.
   */
  lemma ServerErrorReadBack(err: Http.ApiError, requestId: Option<string>, contentType: string, text: string)
    requires 0 <= err.status && !Ok(err.status)
    requires Contains(contentType, JsonType)
    requires Parse(text) == Some(Http.SendError(err, requestId).body)
    ensures var r := Receive(Reply(err.status, Some(contentType), text));
      && r.Failed?
      && r.error.status == err.status
      && r.error.code == Some(JStr(err.code.Name()))
      && r.error.message == JStr(err.message)
      && r.error.details == (if err.details.Some? then Some(JObj(err.details.value)) else None)
      && r.error.requestId == (if requestId.Some? && requestId.value != "" then Some(JStr(requestId.value)) else None)
  {
    var resp := Http.SendError(err, requestId);
    assert Member(Some(resp.body), "error") == Http.BodyField(resp, "error");
  }
}
