/**
 * Claims (apps/api/src/routes/v1/claims.ts): a registered agent is
 * `pending_claim` until its owner shows the claim's verification code
 * before the claim expires; verifying marks the claim verified and the
 * agent claimed.
 */
module Claims {
  import opened Wrappers
  import opened Json
  import opened Http
  import opened Schema
  import Shared

  const ClaimNotFound: ApiError := Err(404, NotFound, "Claim not found")
  const NotPending: ApiError := Err(400, BadRequest, "Claim is not pending")
  const ClaimExpiredError: ApiError := Err(400, BadRequest, "Claim expired")
  const InvalidCode: ApiError := Err(400, BadRequest, "Invalid verification code")

  /** The first claim row carrying `token`. */
  function ClaimByToken(db: Db, token: string): (r: Option<nat>)
    ensures r.Some? ==> r.value < |db.claims| && db.claims[r.value].token == token
    ensures r.None? <==> forall i :: 0 <= i < |db.claims| ==> db.claims[i].token != token
  {
    Find(db.claims, (c: Claim) => c.token == token)
  }

  /** Writes that leave every row's token alone leave the token lookup alone. */
  lemma SameTokensSameClaim(db: Db, db': Db, token: string)
    requires |db'.claims| == |db.claims|
    requires forall k :: 0 <= k < |db.claims| ==> db'.claims[k].token == db.claims[k].token
    ensures ClaimByToken(db', token) == ClaimByToken(db, token)
  {
    FindAgrees(db'.claims, (c: Claim) => c.token == token, db.claims, (c: Claim) => c.token == token);
  }

  // ------------------------------------------------------------ GET /claims/:token

  /** What the claim page shows. */
  datatype ClaimView = ClaimView(agentName: string, status: ClaimStatus, expiresAt: int)

  /** The claim query joins the agent, so a claim whose agent is gone is not found. */
  predicate Joined(db: Db, c: Claim, token: string) {
    c.token == token && AgentById(db, c.agentId).Some?
  }

  function GetClaim(db: Db, token: string): (r: Outcome<ClaimView>)
    ensures r.Fail? <==> forall i :: 0 <= i < |db.claims| ==> !Joined(db, db.claims[i], token)
    ensures r.Fail? ==> r.err == ClaimNotFound
    ensures r.Ok? ==>
      exists i :: 0 <= i < |db.claims| && Joined(db, db.claims[i], token) &&
        r.value == ClaimView(AgentById(db, db.claims[i].agentId).value.name, db.claims[i].status, db.claims[i].expiresAt)
  {
    match Find(db.claims, (c: Claim) => Joined(db, c, token))
    case None => Fail(ClaimNotFound)
    case Some(i) =>
      var c := db.claims[i];
      Ok(ClaimView(AgentById(db, c.agentId).value.name, c.status, c.expiresAt))
  }

  // ---------------------------------------------------- POST /claims/:token/verify

  datatype VerifyBody = VerifyBody(code: string, tweetUrl: Option<string>)

  /** `VerifyClaimBodySchema`; `isUrl` stands for zod's URL check. */
  predicate ValidVerify(b: VerifyBody, isUrl: string -> bool) {
    && 1 <= |b.code| <= 32
    && (b.tweetUrl.Some? ==> isUrl(b.tweetUrl.value) && |b.tweetUrl.value| <= 512)
  }

  function ReadVerify(v: Json): Option<VerifyBody> {
    if !v.JObj? then None
    else
      match (Shared.Required(v.members, "verification_code"), Shared.Optional(v.members, "tweet_url"))
      case (Some(c), Some(u)) => Some(VerifyBody(c, u))
      case _ => None
  }

  /** `VerifyClaimBodySchema.parse(req.body)` */
  function ParseVerify(v: Json, isUrl: string -> bool): (r: Option<VerifyBody>)
    ensures r.Some? ==> ValidVerify(r.value, isUrl)
    ensures r.Some? ==> v.JObj? && Get(v.members, "verification_code") == Some(JStr(r.value.code))
    ensures !v.JObj? ==> r.None?
  {
    match ReadVerify(v)
    case Some(b) => if ValidVerify(b, isUrl) then Some(b) else None
    case None => None
  }

  function VerifyJson(b: VerifyBody): Json {
    JObj([("verification_code", JStr(b.code))] + Shared.OptionalMember("tweet_url", b.tweetUrl))
  }

  /** The body the claim page sends parses back exactly when it is valid. */
  lemma ParseVerifyJson(b: VerifyBody, isUrl: string -> bool)
    ensures ParseVerify(VerifyJson(b), isUrl) == if ValidVerify(b, isUrl) then Some(b) else None
  {
    var m := VerifyJson(b).members;
    GetIsLast(m, "verification_code", 0);
    if b.tweetUrl.Some? { GetIsLast(m, "tweet_url", 1); }
  }

  /** `UPDATE claims SET status = 'expired' WHERE id = ?` */
  function MarkExpired(claims: seq<Claim>, id: string): (r: seq<Claim>)
    ensures |r| == |claims|
    ensures forall i :: 0 <= i < |r| ==> r[i] == if claims[i].id == id then claims[i].(status := ClaimExpired) else claims[i]
  {
    seq(|claims|, i requires 0 <= i < |claims| => if claims[i].id == id then claims[i].(status := ClaimExpired) else claims[i])
  }

  /** `UPDATE claims SET status = 'verified', verified_at = NOW(3), tweet_url = ? WHERE id = ?` */
  function MarkVerified(claims: seq<Claim>, id: string, now: int, tweetUrl: Option<string>): (r: seq<Claim>)
    ensures |r| == |claims|
    ensures forall i :: 0 <= i < |r| ==>
      r[i] == if claims[i].id == id then claims[i].(status := ClaimVerified, verifiedAt := Some(now), tweetUrl := tweetUrl) else claims[i]
  {
    seq(|claims|, i requires 0 <= i < |claims| =>
      if claims[i].id == id then claims[i].(status := ClaimVerified, verifiedAt := Some(now), tweetUrl := tweetUrl) else claims[i])
  }

  /** `UPDATE agents SET status = 'claimed' WHERE id = ? AND status = 'pending_claim'` */
  function MarkClaimed(agents: seq<Agent>, id: string): (r: seq<Agent>)
    ensures |r| == |agents|
    ensures forall i :: 0 <= i < |r| ==>
      r[i] == if agents[i].id == id && agents[i].status == PendingClaim then agents[i].(status := Claimed) else agents[i]
  {
    seq(|agents|, i requires 0 <= i < |agents| =>
      if agents[i].id == id && agents[i].status == PendingClaim then agents[i].(status := Claimed) else agents[i])
  }

  /** The rows after a successful verification of claim `c`. */
  function Verified(db: Db, c: Claim, b: VerifyBody, now: int): Db {
    db.(claims := MarkVerified(db.claims, c.id, now, b.tweetUrl), agents := MarkClaimed(db.agents, c.agentId))
  }

  /**
   * The transaction body as written: an expired claim is marked expired
   * and then the error is thrown, so the write belongs to a transaction
   * that rolls back.
   */
  function VerifyBodyRun(db: Db, token: string, b: VerifyBody, now: int): Run<()> {
    match ClaimByToken(db, token)
    case None => Run(db, Fail(ClaimNotFound))
    case Some(i) =>
      var c := db.claims[i];
      if c.status != ClaimPending then Run(db, Fail(NotPending))
      else if c.expiresAt < now then Run(db.(claims := MarkExpired(db.claims, c.id)), Fail(ClaimExpiredError))
      else if c.code != b.code then Run(db, Fail(InvalidCode))
      else Run(Verified(db, c, b, now), Ok(()))
  }

  /**
   * POST /claims/:token/verify at time `now` (milliseconds). The body is
   * checked first; then, in one transaction: the claim must exist, be
   * pending, not be past its expiry and carry the given code.
   */
  function VerifyClaim(db: Db, token: string, body: Json, isUrl: string -> bool, now: int): (r: Run<()>)
    ensures r.result.Ok? <==>
      && ParseVerify(body, isUrl).Some?
      && ClaimByToken(db, token).Some?
      && db.claims[ClaimByToken(db, token).value].status == ClaimPending
      && db.claims[ClaimByToken(db, token).value].expiresAt >= now
      && db.claims[ClaimByToken(db, token).value].code == ParseVerify(body, isUrl).value.code
    ensures r.result.Fail? ==> r.db == db
    ensures ParseVerify(body, isUrl).None? ==> r.result == Fail(Shared.InvalidBody)
    ensures ParseVerify(body, isUrl).Some? ==>
      match ClaimByToken(db, token)
      case None => r.result == Fail(ClaimNotFound)
      case Some(i) =>
        var c := db.claims[i];
        && (c.status != ClaimPending ==> r.result == Fail(NotPending))
        && (c.status == ClaimPending && c.expiresAt < now ==> r.result == Fail(ClaimExpiredError))
        && (c.status == ClaimPending && c.expiresAt >= now && c.code != ParseVerify(body, isUrl).value.code ==>
              r.result == Fail(InvalidCode))
    ensures r.result.Ok? ==>
      var c := db.claims[ClaimByToken(db, token).value];
      var b := ParseVerify(body, isUrl).value;
      && |r.db.claims| == |db.claims|
      && |r.db.agents| == |db.agents|
      && (forall k :: 0 <= k < |db.claims| && db.claims[k].id == c.id ==>
            && r.db.claims[k].status == ClaimVerified
            && r.db.claims[k].verifiedAt == Some(now)
            && r.db.claims[k].tweetUrl == b.tweetUrl)
      && (forall k :: 0 <= k < |db.claims| && db.claims[k].id != c.id ==> r.db.claims[k] == db.claims[k])
      && (forall k :: 0 <= k < |db.agents| ==>
            r.db.agents[k].status == if db.agents[k].id == c.agentId && db.agents[k].status == PendingClaim then Claimed else db.agents[k].status)
      && (forall k :: 0 <= k < |db.agents| ==> r.db.agents[k] == db.agents[k].(status := r.db.agents[k].status))
      && r.db == db.(claims := r.db.claims, agents := r.db.agents)
  {
    match ParseVerify(body, isUrl)
    case None => Reject(db, Shared.InvalidBody)
    case Some(b) => Atomically(db, VerifyBodyRun(db, token, b, now))
  }

  /** The claim page's code verifies a pending, unexpired claim and its agent becomes claimed. */
  lemma VerifyClaimsAgent(db: Db, token: string, b: VerifyBody, isUrl: string -> bool, now: int, k: nat)
    requires ValidVerify(b, isUrl)
    requires ClaimByToken(db, token).Some?
    requires var c := db.claims[ClaimByToken(db, token).value];
      c.status == ClaimPending && c.expiresAt >= now && c.code == b.code
    requires k < |db.agents| && db.agents[k].id == db.claims[ClaimByToken(db, token).value].agentId
    requires db.agents[k].status == PendingClaim
    ensures var r := VerifyClaim(db, token, VerifyJson(b), isUrl, now);
      r.result.Ok? && r.db.agents[k].status == Claimed
  {
    ParseVerifyJson(b, isUrl);
  }

  /** A claim verifies once: the same request again is refused as not pending. */
  lemma VerifyTwiceNotPending(db: Db, token: string, body: Json, isUrl: string -> bool, now: int, later: int)
    requires VerifyClaim(db, token, body, isUrl, now).result.Ok?
    ensures VerifyClaim(VerifyClaim(db, token, body, isUrl, now).db, token, body, isUrl, later).result == Fail(NotPending)
  {
    var i := ClaimByToken(db, token).value;
    var r := VerifyClaim(db, token, body, isUrl, now);
    SameTokensSameClaim(db, r.db, token);
  }

  // ------------------------------------------------------------ the expiry write

  /**
   * As written, the expired mark is lost with the rolled-back transaction:
   * an expired pending claim stays pending, so the claim page keeps
   * showing it as pending and every later attempt answers "Claim expired"
   * rather than "Claim is not pending".
   */
  lemma ExpiredMarkIsRolledBack(db: Db, token: string, body: Json, isUrl: string -> bool, now: int, later: int)
    requires ParseVerify(body, isUrl).Some? && ClaimByToken(db, token).Some?
    requires var c := db.claims[ClaimByToken(db, token).value];
      c.status == ClaimPending && c.expiresAt < now && now <= later
    ensures var r := VerifyClaim(db, token, body, isUrl, now);
      && r.result == Fail(ClaimExpiredError)
      && r.db.claims[ClaimByToken(db, token).value].status == ClaimPending
      && VerifyClaim(r.db, token, body, isUrl, later).result == Fail(ClaimExpiredError)
  {
  }

  /** The verify handler with the expired mark committed before the error is reported. */
  function VerifyClaimIntended(db: Db, token: string, body: Json, isUrl: string -> bool, now: int): (r: Run<()>)
    ensures r.result == VerifyClaim(db, token, body, isUrl, now).result
    ensures r.result.Fail? && r.result != Fail(ClaimExpiredError) ==> r.db == db
    ensures r.result == Fail(ClaimExpiredError) ==>
      var i := ClaimByToken(db, token).value;
      && |r.db.claims| == |db.claims|
      && (forall k :: 0 <= k < |db.claims| ==>
            r.db.claims[k] == if db.claims[k].id == db.claims[i].id then db.claims[k].(status := ClaimExpired) else db.claims[k])
      && r.db == db.(claims := r.db.claims)
    ensures r.result.Ok? ==> r.db == VerifyClaim(db, token, body, isUrl, now).db
  {
    match ParseVerify(body, isUrl)
    case None => Reject(db, Shared.InvalidBody)
    case Some(b) =>
      var run := VerifyBodyRun(db, token, b, now);
      if run.result == Fail(ClaimExpiredError) then run else Atomically(db, run)
  }

  /** With the corrected handler an expired claim is shown as expired and is no longer pending. */
  lemma IntendedExpiryPersists(db: Db, token: string, body: Json, isUrl: string -> bool, now: int, later: int)
    requires ParseVerify(body, isUrl).Some? && ClaimByToken(db, token).Some?
    requires var c := db.claims[ClaimByToken(db, token).value];
      c.status == ClaimPending && c.expiresAt < now
    ensures var r := VerifyClaimIntended(db, token, body, isUrl, now);
      && r.result == Fail(ClaimExpiredError)
      && r.db.claims[ClaimByToken(db, token).value].status == ClaimExpired
      && VerifyClaimIntended(r.db, token, body, isUrl, later).result == Fail(NotPending)
  {
    var i := ClaimByToken(db, token).value;
    var r := VerifyClaimIntended(db, token, body, isUrl, now);
    SameTokensSameClaim(db, r.db, token);
  }
}
