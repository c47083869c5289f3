/**
 * The tables the API handlers read and write, as immutable rows. Every
 * `withTransaction` body is one atomic step: the rows it wrote are kept
 * when it returns and discarded when it throws (apps/api/src/db.ts).
 *
 * Tables are sequences of rows searched front to back, so a `LIMIT 1`
 * lookup is the first matching row; the membership tables (follows,
 * subscriptions, blocks) are sets of id pairs. Times are milliseconds.
 */
module Schema {
  import opened Wrappers
  import opened Http

  datatype AgentStatus = PendingClaim | Claimed | Suspended

  datatype Agent = Agent(id: string, name: string, description: Option<string>, status: AgentStatus)

  /** An API key row: the key's lookup prefix and the keyed hash of the whole key. */
  datatype ApiKeyRow = ApiKeyRow(id: string, agentId: string, prefix: string, keyHash: seq<bv8>, revoked: bool)

  datatype ClaimStatus = ClaimPending | ClaimVerified | ClaimExpired

  datatype Claim = Claim(
    id: string, agentId: string, token: string, code: string, status: ClaimStatus,
    expiresAt: int, verifiedAt: Option<int>, tweetUrl: Option<string>)

  datatype Submolt = Submolt(id: string, name: string, displayName: Option<string>, description: Option<string>, createdBy: string)

  datatype PostKind = TextPost | LinkPost

  datatype Post = Post(
    id: string, submoltId: string, authorId: string, title: string, kind: PostKind,
    content: Option<string>, url: Option<string>,
    score: int, upvotes: int, downvotes: int, commentCount: int,
    createdAt: int, deleted: bool)

  datatype Comment = Comment(
    id: string, postId: string, authorId: string, parentId: Option<string>, content: string,
    score: int, upvotes: int, createdAt: int, deleted: bool)

  datatype TargetKind = PostTarget | CommentTarget

  /** One row of the vote ledger. */
  datatype Vote = Vote(id: string, agentId: string, kind: TargetKind, targetId: string, value: int)

  /** A conversation between agents `a` < `b`, with each side's read marker. */
  datatype Conversation = Conversation(
    id: string, a: string, b: string, createdAt: int, lastMessageAt: Option<int>,
    aLastRead: Option<int>, bLastRead: Option<int>)

  datatype RequestStatus = RequestPending | RequestApproved

  datatype DmRequest = DmRequest(
    id: string, conversationId: string, from: string, to: string, message: string,
    status: RequestStatus, resolvedAt: Option<int>)

  datatype Message = Message(id: string, conversationId: string, senderId: string, text: string, createdAt: int)

  datatype Db = Db(
    agents: seq<Agent>,
    apiKeys: seq<ApiKeyRow>,
    claims: seq<Claim>,
    submolts: seq<Submolt>,
    subscriptions: set<(string, string)>,  // (agent, submolt)
    follows: set<(string, string)>,        // (follower, followee)
    blocks: set<(string, string)>,         // (blocker, blocked)
    posts: seq<Post>,
    comments: seq<Comment>,
    votes: seq<Vote>,
    conversations: seq<Conversation>,
    requests: seq<DmRequest>,
    messages: seq<Message>)

  /** The position of the first row satisfying `p`: a `LIMIT 1` lookup. */
  function Find<T>(s: seq<T>, p: T -> bool): (r: Option<nat>)
    ensures r.Some? ==> r.value < |s| && p(s[r.value]) && forall i :: 0 <= i < r.value ==> !p(s[i])
    ensures r.None? <==> forall i :: 0 <= i < |s| ==> !p(s[i])
  {
    if |s| == 0 then None
    else if p(s[0]) then Some(0)
    else match Find(s[1..], p)
      case Some(i) => assert s[1..][i] == s[i + 1]; Some(i + 1)
      case None => assert forall i :: 1 <= i < |s| ==> s[i] == s[1..][i - 1]; None
  }

  /** A row appended to a table without a match is the first match. */
  lemma {:induction false} FindAppend<T>(s: seq<T>, x: T, p: T -> bool)
    requires Find(s, p).None? && p(x)
    ensures Find(s + [x], p) == Some(|s|)
    decreases |s|
  {
    if |s| == 0 {
      assert s + [x] == [x];
    } else {
      assert (s + [x])[1..] == s[1..] + [x];
      assert !p(s[0]);
      assert forall i :: 0 <= i < |s[1..]| ==> s[1..][i] == s[i + 1];
      FindAppend(s[1..], x, p);
    }
  }

  /** Tables that match row for row are searched alike. */
  lemma {:induction false} FindAgrees<T, U>(s: seq<T>, p: T -> bool, t: seq<U>, q: U -> bool)
    requires |s| == |t| && forall k :: 0 <= k < |s| ==> p(s[k]) == q(t[k])
    ensures Find(s, p) == Find(t, q)
    decreases |s|
  {
    if |s| > 0 {
      assert forall k :: 0 <= k < |s[1..]| ==> s[1..][k] == s[k + 1] && t[1..][k] == t[k + 1];
      FindAgrees(s[1..], p, t[1..], q);
    }
  }

  /**
   * What a transaction body left behind: the rows as its connection sees
   * them when it finishes, and what it returned or threw.
   */
  datatype Run<T> = Run(db: Db, result: Outcome<T>)

  /** `withTransaction`: commit the body's rows when it returns, roll back to `before` when it throws. */
  function Atomically<T>(before: Db, body: Run<T>): (r: Run<T>)
    ensures r.result == body.result
    ensures r.result.Fail? ==> r.db == before
    ensures r.result.Ok? ==> r.db == body.db
  {
    if body.result.Ok? then body else Run(before, body.result)
  }

  /** A request rejected before it touched the database. */
  function Reject<T>(db: Db, err: ApiError): Run<T> {
    Run(db, Fail(err))
  }

  /** `if (!req.agent)` in every authenticated handler. */
  const Unauthenticated: ApiError := Err(401, Unauthorized, "Missing or invalid API key")

  /**
   * A duplicate-key error from a unique index, as the error middleware
   * reports it (apps/api/src/middleware/errorHandler.ts).
   */
  const AlreadyExists: ApiError := Err(409, Conflict, "Already exists")

  const SubmoltNotFound: ApiError := Err(404, NotFound, "Submolt not found")

  const AgentNotFound: ApiError := Err(404, NotFound, "Agent not found")

  /** The agent row whose id is `id`, if any. */
  function AgentById(db: Db, id: string): Option<Agent> {
    match Find(db.agents, (x: Agent) => x.id == id)
    case Some(i) => Some(db.agents[i])
    case None => None
  }

  /** The agent row named `name`, if any (names are unique). */
  function AgentByName(db: Db, name: string): Option<Agent> {
    match Find(db.agents, (x: Agent) => x.name == name)
    case Some(i) => Some(db.agents[i])
    case None => None
  }

  function SubmoltByName(db: Db, name: string): Option<Submolt> {
    match Find(db.submolts, (x: Submolt) => x.name == name)
    case Some(i) => Some(db.submolts[i])
    case None => None
  }

  /** The live post `id`: `WHERE id = ? AND deleted_at IS NULL LIMIT 1`. */
  function LivePost(db: Db, id: string): (r: Option<nat>)
    ensures r.Some? ==> r.value < |db.posts| && db.posts[r.value].id == id && !db.posts[r.value].deleted
    ensures r.None? <==> forall i :: 0 <= i < |db.posts| ==> !(db.posts[i].id == id && !db.posts[i].deleted)
  {
    Find(db.posts, (p: Post) => p.id == id && !p.deleted)
  }

  /** The rows of a table with a primary key: no two share an id. */
  predicate UniqueBy<T>(s: seq<T>, key: T -> string) {
    forall i, j :: 0 <= i < j < |s| ==> key(s[i]) != key(s[j])
  }

  predicate UniquePostIds(db: Db) {
    UniqueBy(db.posts, (p: Post) => p.id)
  }

  predicate UniqueCommentIds(db: Db) {
    UniqueBy(db.comments, (c: Comment) => c.id)
  }
}
