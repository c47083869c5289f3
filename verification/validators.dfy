/**
 * The request-body schemas shared by the API and its clients
 * (packages/shared/src/index.ts), restated as predicates over typed bodies,
 * together with the reading of a JSON body that `Schema.parse` performs:
 * a body is an object, required fields are strings, optional fields are
 * absent or strings, and unknown keys are dropped.
 */
module Shared {
  import opened Wrappers
  import opened Json
  import opened Http

  /** `[A-Za-z0-9_]` */
  predicate IsWordChar(c: char) {
    'A' <= c <= 'Z' || 'a' <= c <= 'z' || '0' <= c <= '9' || c == '_'
  }

  /** `[a-z0-9_]` */
  predicate IsLowerWordChar(c: char) {
    'a' <= c <= 'z' || '0' <= c <= '9' || c == '_'
  }

  /** `AgentNameSchema`: 2 to 32 characters, letters, digits and underscores. */
  predicate AgentName(s: string) {
    2 <= |s| <= 32 && forall i :: 0 <= i < |s| ==> IsWordChar(s[i])
  }

  /** `SubmoltNameSchema`: 2 to 32 characters, lower-case letters, digits and underscores. */
  predicate SubmoltName(s: string) {
    2 <= |s| <= 32 && forall i :: 0 <= i < |s| ==> IsLowerWordChar(s[i])
  }

  /** The longest agent or submolt description. */
  const MaxDescription: nat := 2000

  /** An optional string that is at most `n` long when present. */
  predicate AtMost(s: Option<string>, n: nat) {
    s.Some? ==> |s.value| <= n
  }

  /** JavaScript truthiness of an optional string: present and non-empty. */
  predicate Truthy(s: Option<string>) {
    s.Some? && s.value != ""
  }

  // ----------------------------------------------------------------- bodies

  datatype RegisterBody = RegisterBody(name: string, description: Option<string>)

  predicate ValidRegister(b: RegisterBody) {
    AgentName(b.name) && AtMost(b.description, MaxDescription)
  }

  datatype SubmoltBody = SubmoltBody(name: string, displayName: Option<string>, description: Option<string>)

  predicate ValidSubmolt(b: SubmoltBody) {
    SubmoltName(b.name) && AtMost(b.displayName, 64) && AtMost(b.description, MaxDescription)
  }

  datatype PostBody = PostBody(submolt: string, title: string, content: Option<string>, url: Option<string>)

  /**
   * `CreatePostBodySchema`; `isUrl` stands for zod's URL check. The two
   * refinements ask for a truthy content or url, and not both.
   */
  predicate ValidPost(b: PostBody, isUrl: string -> bool) {
    && SubmoltName(b.submolt)
    && 1 <= |b.title| <= 200
    && AtMost(b.content, 20000)
    && (b.url.Some? ==> isUrl(b.url.value) && |b.url.value| <= 2048)
    && (Truthy(b.content) || Truthy(b.url))
    && !(Truthy(b.content) && Truthy(b.url))
  }

  datatype CommentBody = CommentBody(content: string, parentId: Option<string>)

  /** `CreateCommentBodySchema`: a parent id, when given, has the 26 characters of a ULID. */
  predicate ValidComment(b: CommentBody) {
    1 <= |b.content| <= 10000 && (b.parentId.Some? ==> |b.parentId.value| == 26)
  }

  datatype DmRequestBody = DmRequestBody(to: string, message: string)

  predicate ValidDmRequest(b: DmRequestBody) {
    AgentName(b.to) && 1 <= |b.message| <= 2000
  }

  datatype DmSendBody = DmSendBody(message: string)

  predicate ValidDmSend(b: DmSendBody) {
    1 <= |b.message| <= 4000
  }

  /** A valid post body is a text post or a link post, never both. */
  lemma PostIsTextOrLink(b: PostBody, isUrl: string -> bool)
    requires ValidPost(b, isUrl)
    ensures Truthy(b.content) <==> !Truthy(b.url)
  {
  }

  // ------------------------------------------------------ reading the JSON

  /** A body zod refuses: reported as 400 "Invalid request" with zod's issue list. */
  const InvalidBody: ApiError := Err(400, BadRequest, "Invalid request")

  /** How one member of the body reads: absent, a string, or some other value (including null). */
  datatype Field = Absent | Text(s: string) | Mistyped

  function FieldOf(members: seq<(string, Json)>, key: string): (f: Field)
    ensures f.Absent? <==> Get(members, key).None?
    ensures f.Text? ==> Get(members, key) == Some(JStr(f.s))
    ensures f.Mistyped? <==> Get(members, key).Some? && !Get(members, key).value.JStr?
  {
    match Get(members, key)
    case None => Absent
    case Some(JStr(s)) => Text(s)
    case Some(_) => Mistyped
  }

  /** A required string member. */
  function Required(members: seq<(string, Json)>, key: string): (r: Option<string>)
    ensures r.Some? ==> Get(members, key) == Some(JStr(r.value))
    ensures r.None? <==> Get(members, key).None? || !Get(members, key).value.JStr?
  {
    match FieldOf(members, key)
    case Text(s) => Some(s)
    case _ => None
  }

  /** An optional string member: `Some(None)` when absent, `None` when mistyped. */
  function Optional(members: seq<(string, Json)>, key: string): (r: Option<Option<string>>)
    ensures r == Some(None) <==> Get(members, key).None?
    ensures forall s :: r == Some(Some(s)) <==> Get(members, key) == Some(JStr(s))
  {
    match FieldOf(members, key)
    case Absent => Some(None)
    case Text(s) => Some(Some(s))
    case Mistyped => None
  }

  /** The members a client writes for an optional field: none when it is absent. */
  function OptionalMember(key: string, v: Option<string>): seq<(string, Json)> {
    if v.Some? then [(key, JStr(v.value))] else []
  }

  function ReadPost(v: Json): Option<PostBody> {
    if !v.JObj? then None
    else
      var m := v.members;
      match (Required(m, "submolt"), Required(m, "title"), Optional(m, "content"), Optional(m, "url"))
      case (Some(s), Some(t), Some(c), Some(u)) => Some(PostBody(s, t, c, u))
      case _ => None
  }

  /** `CreatePostBodySchema.parse(req.body)`: the typed body, or nothing when zod throws. */
  function ParsePost(v: Json, isUrl: string -> bool): (r: Option<PostBody>)
    ensures r.Some? ==> ValidPost(r.value, isUrl)
    ensures r.Some? ==> v.JObj? && Get(v.members, "title") == Some(JStr(r.value.title))
    ensures !v.JObj? ==> r.None?
  {
    match ReadPost(v)
    case Some(b) => if ValidPost(b, isUrl) then Some(b) else None
    case None => None
  }

  /** The JSON object a client sends for a post body. */
  function PostJson(b: PostBody): Json {
    JObj([("submolt", JStr(b.submolt)), ("title", JStr(b.title))]
      + OptionalMember("content", b.content) + OptionalMember("url", b.url))
  }

  /** Sending a post body and parsing it gives it back exactly when it is valid. */
  lemma ParsePostJson(b: PostBody, isUrl: string -> bool)
    ensures ParsePost(PostJson(b), isUrl) == if ValidPost(b, isUrl) then Some(b) else None
  {
    ReadPostJson(b);
  }

  lemma ReadPostJson(b: PostBody)
    ensures ReadPost(PostJson(b)) == Some(b)
  {
    var m := PostJson(b).members;
    var head := [("submolt", JStr(b.submolt)), ("title", JStr(b.title))];
    var c := OptionalMember("content", b.content);
    var u := OptionalMember("url", b.url);
    assert m == head + c + u;
    GetIsLast(m, "submolt", 0);
    GetIsLast(m, "title", 1);
    if b.content.Some? { GetIsLast(m, "content", 2); }
    if b.url.Some? { GetIsLast(m, "url", |m| - 1); }
  }

  function ReadComment(v: Json): Option<CommentBody> {
    if !v.JObj? then None
    else
      match (Required(v.members, "content"), Optional(v.members, "parent_id"))
      case (Some(c), Some(p)) => Some(CommentBody(c, p))
      case _ => None
  }

  /** `CreateCommentBodySchema.parse(req.body)` */
  function ParseComment(v: Json): (r: Option<CommentBody>)
    ensures r.Some? ==> ValidComment(r.value)
    ensures r.Some? ==> v.JObj? && Get(v.members, "content") == Some(JStr(r.value.content))
    ensures !v.JObj? ==> r.None?
  {
    match ReadComment(v)
    case Some(b) => if ValidComment(b) then Some(b) else None
    case None => None
  }

  function CommentJson(b: CommentBody): Json {
    JObj([("content", JStr(b.content))] + OptionalMember("parent_id", b.parentId))
  }

  lemma ParseCommentJson(b: CommentBody)
    ensures ParseComment(CommentJson(b)) == if ValidComment(b) then Some(b) else None
  {
    var m := CommentJson(b).members;
    GetIsLast(m, "content", 0);
    if b.parentId.Some? { GetIsLast(m, "parent_id", 1); }
  }

  function ReadRegister(v: Json): Option<RegisterBody> {
    if !v.JObj? then None
    else
      match (Required(v.members, "name"), Optional(v.members, "description"))
      case (Some(n), Some(d)) => Some(RegisterBody(n, d))
      case _ => None
  }

  /** `RegisterAgentBodySchema.parse(req.body)` */
  function ParseRegister(v: Json): (r: Option<RegisterBody>)
    ensures r.Some? ==> ValidRegister(r.value)
    ensures r.Some? ==> v.JObj? && Get(v.members, "name") == Some(JStr(r.value.name))
    ensures !v.JObj? ==> r.None?
  {
    match ReadRegister(v)
    case Some(b) => if ValidRegister(b) then Some(b) else None
    case None => None
  }

  function RegisterJson(b: RegisterBody): Json {
    JObj([("name", JStr(b.name))] + OptionalMember("description", b.description))
  }

  lemma ParseRegisterJson(b: RegisterBody)
    ensures ParseRegister(RegisterJson(b)) == if ValidRegister(b) then Some(b) else None
  {
    var m := RegisterJson(b).members;
    GetIsLast(m, "name", 0);
    if b.description.Some? { GetIsLast(m, "description", 1); }
  }

  function ReadSubmolt(v: Json): Option<SubmoltBody> {
    if !v.JObj? then None
    else
      var m := v.members;
      match (Required(m, "name"), Optional(m, "display_name"), Optional(m, "description"))
      case (Some(n), Some(d), Some(s)) => Some(SubmoltBody(n, d, s))
      case _ => None
  }

  /** `CreateSubmoltBodySchema.parse(req.body)` */
  function ParseSubmolt(v: Json): (r: Option<SubmoltBody>)
    ensures r.Some? ==> ValidSubmolt(r.value)
    ensures r.Some? ==> v.JObj? && Get(v.members, "name") == Some(JStr(r.value.name))
    ensures !v.JObj? ==> r.None?
  {
    match ReadSubmolt(v)
    case Some(b) => if ValidSubmolt(b) then Some(b) else None
    case None => None
  }

  function SubmoltJson(b: SubmoltBody): Json {
    JObj([("name", JStr(b.name))] + OptionalMember("display_name", b.displayName)
      + OptionalMember("description", b.description))
  }

  lemma ParseSubmoltJson(b: SubmoltBody)
    ensures ParseSubmolt(SubmoltJson(b)) == if ValidSubmolt(b) then Some(b) else None
  {
    var m := SubmoltJson(b).members;
    var head := [("name", JStr(b.name))];
    var d := OptionalMember("display_name", b.displayName);
    var s := OptionalMember("description", b.description);
    assert m == head + d + s;
    GetIsLast(m, "name", 0);
    if b.displayName.Some? { GetIsLast(m, "display_name", 1); }
    if b.description.Some? { GetIsLast(m, "description", |m| - 1); }
  }

  function ReadDmRequest(v: Json): Option<DmRequestBody> {
    if !v.JObj? then None
    else
      match (Required(v.members, "to"), Required(v.members, "message"))
      case (Some(t), Some(msg)) => Some(DmRequestBody(t, msg))
      case _ => None
  }

  /** `DmRequestBodySchema.parse(req.body)` */
  function ParseDmRequest(v: Json): (r: Option<DmRequestBody>)
    ensures r.Some? ==> ValidDmRequest(r.value)
    ensures r.Some? ==> v.JObj? && Get(v.members, "to") == Some(JStr(r.value.to))
    ensures !v.JObj? ==> r.None?
  {
    match ReadDmRequest(v)
    case Some(b) => if ValidDmRequest(b) then Some(b) else None
    case None => None
  }

  function DmRequestJson(b: DmRequestBody): Json {
    JObj([("to", JStr(b.to)), ("message", JStr(b.message))])
  }

  lemma ParseDmRequestJson(b: DmRequestBody)
    ensures ParseDmRequest(DmRequestJson(b)) == if ValidDmRequest(b) then Some(b) else None
  {
    var m := DmRequestJson(b).members;
    GetIsLast(m, "to", 0);
    GetIsLast(m, "message", 1);
  }

  function ReadDmSend(v: Json): Option<DmSendBody> {
    if !v.JObj? then None
    else
      match Required(v.members, "message")
      case Some(msg) => Some(DmSendBody(msg))
      case None => None
  }

  /** `DmSendBodySchema.parse(req.body)` */
  function ParseDmSend(v: Json): (r: Option<DmSendBody>)
    ensures r.Some? ==> ValidDmSend(r.value)
    ensures r.Some? ==> v.JObj? && Get(v.members, "message") == Some(JStr(r.value.message))
    ensures !v.JObj? ==> r.None?
  {
    match ReadDmSend(v)
    case Some(b) => if ValidDmSend(b) then Some(b) else None
    case None => None
  }

  function DmSendJson(b: DmSendBody): Json {
    JObj([("message", JStr(b.message))])
  }

  lemma ParseDmSendJson(b: DmSendBody)
    ensures ParseDmSend(DmSendJson(b)) == if ValidDmSend(b) then Some(b) else None
  {
    GetIsLast(DmSendJson(b).members, "message", 0);
  }

  /** Members zod does not know are dropped: adding them in front changes nothing. */
  lemma UnknownKeysIgnored(extra: seq<(string, Json)>, b: DmSendBody)
    requires forall i :: 0 <= i < |extra| ==> extra[i].0 != "message"
    ensures ParseDmSend(JObj(extra + DmSendJson(b).members)) == ParseDmSend(DmSendJson(b))
  {
    var m := extra + DmSendJson(b).members;
    GetIsLast(m, "message", |m| - 1);
    GetIsLast(DmSendJson(b).members, "message", 0);
  }
}
