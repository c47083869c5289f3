/**
 * The agent routes (apps/api/src/routes/v1/agents.ts): registration,
 * which creates an unclaimed agent with one API key and one claim; the
 * caller's own status and profile; following and unfollowing others.
 */
module Agents {
  import opened Wrappers
  import opened Json
  import opened Http
  import opened Text
  import opened Schema
  import opened Keys
  import opened Auth
  import Shared
  import Claims

  // ---------------------------------------------------------- POST /agents/register

  /** The code alphabet's letters: A to Z without I and O. */
  const CodeLetters: string := "ABCDEFGHJKLMNPQRSTUVWXYZ"

  /** The code alphabet's digits: 2 to 9. */
  const CodeDigits: string := "23456789"

  /** The 32 symbols of the verification code, "ABCDEFGHJKLMNPQRSTUVWXYZ23456789". */
  const CodeAlphabet: string := CodeLetters + CodeDigits

  const CodeTag: string := "reef-"

  /** A claim lives seven days, in milliseconds. */
  const ClaimTtl: int := 7 * 24 * 60 * 60 * 1000

  /** The symbols that cannot be misread: no I, O, 0 or 1. */
  predicate Unambiguous(c: char) {
    c !in {'I', 'O', '0', '1'}
  }

  /** Characters in strictly increasing order, hence all different. */
  predicate Ascending(s: string) {
    forall i :: 0 <= i < |s| - 1 ==> s[i] < s[i + 1]
  }

  lemma {:induction false} AscendingIsDistinct(s: string, i: nat, j: nat)
    requires Ascending(s) && i < j < |s|
    ensures s[i] < s[j]
    decreases j - i
  {
    if i + 1 < j {
      AscendingIsDistinct(s, i + 1, j);
    }
  }

  lemma LettersShape()
    ensures Ascending(CodeLetters)
    ensures forall i :: 0 <= i < |CodeLetters| ==> 'A' <= CodeLetters[i] <= 'Z' && Unambiguous(CodeLetters[i])
  {
  }

  lemma DigitsShape()
    ensures Ascending(CodeDigits)
    ensures forall i :: 0 <= i < |CodeDigits| ==> '2' <= CodeDigits[i] <= '9'
  {
  }

  /** The code alphabet has 32 different symbols, none of them I, O, 0 or 1. */
  lemma CodeAlphabetShape()
    ensures |CodeAlphabet| == 32
    ensures forall i, j :: 0 <= i < j < |CodeAlphabet| ==> CodeAlphabet[i] != CodeAlphabet[j]
    ensures forall i :: 0 <= i < |CodeAlphabet| ==> Unambiguous(CodeAlphabet[i])
  {
    LettersShape();
    DigitsShape();
    var n := |CodeLetters|;
    assert forall i :: 0 <= i < n ==> CodeAlphabet[i] == CodeLetters[i];
    assert forall i :: n <= i < |CodeAlphabet| ==> CodeAlphabet[i] == CodeDigits[i - n];
    forall i, j | 0 <= i < j < |CodeAlphabet| ensures CodeAlphabet[i] != CodeAlphabet[j] {
      if j < n {
        AscendingIsDistinct(CodeLetters, i, j);
      } else if i >= n {
        AscendingIsDistinct(CodeDigits, i - n, j - n);
      }
    }
  }

  /** `customAlphabet(codeAlphabet, 4)()`: four symbols, the draws being the random parameter. */
  function ShortCode(draws: (nat, nat, nat, nat)): (r: string)
    ensures |r| == 4
    ensures forall i :: 0 <= i < 4 ==> r[i] in CodeAlphabet
  {
    var n := |CodeAlphabet|;
    [CodeAlphabet[draws.0 % n], CodeAlphabet[draws.1 % n], CodeAlphabet[draws.2 % n], CodeAlphabet[draws.3 % n]]
  }

  function VerificationCode(draws: (nat, nat, nat, nat)): (r: string)
    ensures |r| == 9 && StartsWith(r, CodeTag)
    ensures forall i :: |CodeTag| <= i < |r| ==> r[i] in CodeAlphabet && Unambiguous(r[i])
  {
    var r := CodeTag + ShortCode(draws);
    assert r[..|CodeTag|] == CodeTag;
    CodeAlphabetShape();
    assert forall i :: |CodeTag| <= i < |r| ==> r[i] == ShortCode(draws)[i - |CodeTag|];
    r
  }

  /** Every four symbols of the alphabet are some draw's code. */
  lemma EveryCodeCanBeDrawn(s: string)
    requires |s| == 4 && forall i :: 0 <= i < 4 ==> s[i] in CodeAlphabet
    ensures exists d :: ShortCode(d) == s
  {
    var k0 := DrawOf(s[0]);
    var k1 := DrawOf(s[1]);
    var k2 := DrawOf(s[2]);
    var k3 := DrawOf(s[3]);
    assert ShortCode((k0, k1, k2, k3)) == s;
  }

  /** The draw that picks symbol `c`. */
  lemma DrawOf(c: char) returns (k: nat)
    requires c in CodeAlphabet
    ensures k < |CodeAlphabet| && CodeAlphabet[k % |CodeAlphabet|] == c
  {
    k :| 0 <= k < |CodeAlphabet| && CodeAlphabet[k] == c;
    ModOfSmaller(k, |CodeAlphabet|);
  }

  lemma ModOfSmaller(k: nat, n: nat)
    requires k < n
    ensures k % n == k
  {
  }

  /** `replace(/\/$/, "")`: one trailing slash is removed, if there is one. */
  function StripTrailingSlash(base: string): (r: string)
    ensures |base| > 0 && base[|base| - 1] == '/' ==> base == r + "/"
    ensures |base| == 0 || base[|base| - 1] != '/' ==> r == base
  {
    if |base| > 0 && base[|base| - 1] == '/' then base[..|base| - 1] else base
  }

  /** The claim link handed to the agent's owner. */
  function ClaimUrl(base: string, token: string): (r: string)
    ensures r == StripTrailingSlash(base) + "/claim/" + token
  {
    StripTrailingSlash(base) + "/claim/" + token
  }

  /** A base with or without its slash gives the same link; a second slash is kept. */
  lemma ClaimUrlStripsOneSlash(base: string, token: string)
    requires |base| == 0 || base[|base| - 1] != '/'
    ensures ClaimUrl(base + "/", token) == ClaimUrl(base, token)
    ensures ClaimUrl(base + "//", token) == base + "/" + "/claim/" + token
  {
    assert (base + "/")[..|base|] == base;
    assert (base + "//")[..|base| + 1] == base + "/";
  }

  /** The values a registration draws: three ids, the key's random part, the claim token and the code's symbols. */
  datatype Draws = Draws(
    agentId: string, keyId: string, claimId: string, keyPart: string, claimToken: string,
    code: (nat, nat, nat, nat))

  /** What the agent is told once: its key, the claim link and the verification code. */
  datatype Registered = Registered(apiKey: string, claimUrl: string, verificationCode: string)

  /** The three rows a registration inserts. */
  function Registration(db: Db, b: Shared.RegisterBody, d: Draws, hash: string -> seq<bv8>, now: int): Db {
    var key := CreateApiKey(d.keyPart);
    db.(
      agents := db.agents + [Agent(d.agentId, b.name, b.description, PendingClaim)],
      apiKeys := db.apiKeys + [ApiKeyRow(d.keyId, d.agentId, key.prefix, hash(key.apiKey), false)],
      claims := db.claims + [Claim(d.claimId, d.agentId, d.claimToken, VerificationCode(d.code), ClaimPending, now + ClaimTtl, None, None)])
  }

  /**
   * POST /agents/register at time `now` with public base URL `base`.
   * Agent names are a unique key, so a taken name is the duplicate-key
   * error, reported as 409, and nothing is inserted.
   */
  function Register(db: Db, body: Json, d: Draws, hash: string -> seq<bv8>, now: int, base: string): (r: Run<Registered>)
    ensures r.result.Ok? <==> Shared.ParseRegister(body).Some? && AgentByName(db, Shared.ParseRegister(body).value.name).None?
    ensures r.result.Fail? ==> r.db == db
    ensures Shared.ParseRegister(body).None? ==> r.result == Fail(Shared.InvalidBody)
    ensures Shared.ParseRegister(body).Some? && AgentByName(db, Shared.ParseRegister(body).value.name).Some? ==>
      r.result == Fail(AlreadyExists)
    ensures r.result.Ok? ==>
      var b := Shared.ParseRegister(body).value;
      var key := CreateApiKey(d.keyPart);
      && r.db == db.(agents := r.db.agents, apiKeys := r.db.apiKeys, claims := r.db.claims)
      && r.db.agents == db.agents + [Agent(d.agentId, b.name, b.description, PendingClaim)]
      && |r.db.apiKeys| == |db.apiKeys| + 1 && r.db.apiKeys[..|db.apiKeys|] == db.apiKeys
      && r.db.apiKeys[|db.apiKeys|].agentId == d.agentId
      && r.db.apiKeys[|db.apiKeys|].keyHash == hash(r.result.value.apiKey)
      && !r.db.apiKeys[|db.apiKeys|].revoked
      && |r.db.claims| == |db.claims| + 1 && r.db.claims[..|db.claims|] == db.claims
      && r.db.claims[|db.claims|].agentId == d.agentId
      && r.db.claims[|db.claims|].token == d.claimToken
      && r.db.claims[|db.claims|].status == ClaimPending
      && r.db.claims[|db.claims|].expiresAt == now + ClaimTtl
      && r.db.claims[|db.claims|].code == r.result.value.verificationCode
      && r.result.value.apiKey == key.apiKey
      && r.result.value.claimUrl == ClaimUrl(base, d.claimToken)
  {
    match Shared.ParseRegister(body)
    case None => Reject(db, Shared.InvalidBody)
    case Some(b) =>
      if AgentByName(db, b.name).Some? then Reject(db, AlreadyExists)
      else
        var key := CreateApiKey(d.keyPart);
        var r := Run(Registration(db, b, d, hash, now), Ok(Registered(key.apiKey, ClaimUrl(base, d.claimToken), VerificationCode(d.code))));
        assert r.db.apiKeys[..|db.apiKeys|] == db.apiKeys;
        assert r.db.claims[..|db.claims|] == db.claims;
        r
  }

  /**
   * A registered agent's key authenticates it: with a fresh agent id and no
   * earlier key under the same prefix, the header "Bearer <key>" yields
   * the new agent, unclaimed.
   */
  lemma RegisteredKeyAuthenticates(db: Db, body: Json, d: Draws, hash: string -> seq<bv8>, now: int, base: string)
    requires NanoidKeyPart(d.keyPart)
    requires AgentById(db, d.agentId).None?
    requires forall i :: 0 <= i < |db.apiKeys| ==> db.apiKeys[i].prefix != CreateApiKey(d.keyPart).prefix
    requires Register(db, body, d, hash, now, base).result.Ok?
    ensures var r := Register(db, body, d, hash, now, base);
      var b := Shared.ParseRegister(body).value;
      Authenticate(r.db, Some(BearerTag + r.result.value.apiKey), hash) == Ok(AuthAgent(d.agentId, b.name, PendingClaim, b.description))
  {
    var r := Register(db, body, d, hash, now, base);
    var b := Shared.ParseRegister(body).value;
    var key := CreateApiKey(d.keyPart);
    CreatedKeyIsAccepted(d.keyPart);
    var agent := Agent(d.agentId, b.name, b.description, PendingClaim);
    AppendedAgentFound(db, r.db, agent);
    var row := r.db.apiKeys[|db.apiKeys|];
    assert r.db.apiKeys == db.apiKeys + [row];
    AppendedKeyFound(r.db, db.apiKeys, row, key.prefix);
  }

  lemma AppendedAgentFound(db: Db, db': Db, a: Agent)
    requires AgentById(db, a.id).None? && db'.agents == db.agents + [a]
    ensures AgentById(db', a.id) == Some(a)
  {
    FindAppend(db.agents, a, (x: Agent) => x.id == a.id);
  }

  lemma AppendedKeyFound(db: Db, keys: seq<ApiKeyRow>, row: ApiKeyRow, prefix: string)
    requires db.apiKeys == keys + [row] && row.prefix == prefix && AgentById(db, row.agentId).Some?
    requires forall i :: 0 <= i < |keys| ==> keys[i].prefix != prefix
    ensures KeyRow(db, prefix) == Some(|keys|)
  {
    FindAppend(keys, row, (k: ApiKeyRow) => k.prefix == prefix && AgentById(db, k.agentId).Some?);
  }

  /**
   * A registered claim can be verified with the code the agent was given,
   * until its expiry, and the agent becomes claimed.
   */
  lemma RegisteredClaimVerifies(db: Db, body: Json, d: Draws, hash: string -> seq<bv8>, now: int, base: string,
                                isUrl: string -> bool, at: int)
    requires Register(db, body, d, hash, now, base).result.Ok?
    requires Claims.ClaimByToken(db, d.claimToken).None?
    requires at <= now + ClaimTtl
    ensures var r := Register(db, body, d, hash, now, base);
      var v := Claims.VerifyClaim(r.db, d.claimToken, Claims.VerifyJson(Claims.VerifyBody(r.result.value.verificationCode, None)), isUrl, at);
      && v.result.Ok?
      && v.db.agents[|db.agents|].status == Claimed
  {
    var r := Register(db, body, d, hash, now, base);
    var c := r.db.claims[|db.claims|];
    assert r.db.claims == db.claims + [c];
    FindAppend(db.claims, c, (x: Claim) => x.token == d.claimToken);
    var vb := Claims.VerifyBody(r.result.value.verificationCode, None);
    Claims.ParseVerifyJson(vb, isUrl);
    assert r.db.agents[|db.agents|].id == d.agentId;
  }

  // ----------------------------------------------------- GET /agents/status, /me

  /** GET /agents/status and GET /agents/me: the authenticated agent, or 401. */
  function GetMe(me: Option<AuthAgent>): (r: Outcome<AuthAgent>)
    ensures r.Fail? <==> me.None?
    ensures r.Fail? ==> r.err == Unauthenticated
    ensures r.Ok? ==> r.value == me.value
  {
    if me.None? then Fail(Unauthenticated) else Ok(me.value)
  }

  // ----------------------------------------------------------- PATCH /agents/me

  const DescriptionRequired: ApiError := Err(400, BadRequest, "description is required")
  const DescriptionTooLong: ApiError := Err(400, BadRequest, "description too long")

  /** `typeof req.body?.description === "string"`: the member, when the body is an object holding a string there. */
  function DescriptionOf(body: Json): (r: Option<string>)
    ensures r.Some? <==> body.JObj? && Get(body.members, "description").Some? && Get(body.members, "description").value.JStr?
    ensures r.Some? ==> Get(body.members, "description") == Some(JStr(r.value))
  {
    if body.JObj? then
      match Get(body.members, "description")
      case Some(JStr(s)) => Some(s)
      case _ => None
    else None
  }

  /** `UPDATE agents SET description = ? WHERE id = ?` */
  function SetDescription(agents: seq<Agent>, id: string, text: string): (r: seq<Agent>)
    ensures |r| == |agents|
    ensures forall i :: 0 <= i < |r| ==> r[i] == if agents[i].id == id then agents[i].(description := Some(text)) else agents[i]
  {
    seq(|agents|, i requires 0 <= i < |agents| => if agents[i].id == id then agents[i].(description := Some(text)) else agents[i])
  }

  /** PATCH /agents/me: a string description of at most 2000 characters replaces the caller's. */
  function UpdateProfile(db: Db, me: Option<AuthAgent>, body: Json): (r: Run<()>)
    ensures r.result.Ok? <==> me.Some? && DescriptionOf(body).Some? && |DescriptionOf(body).value| <= Shared.MaxDescription
    ensures r.result.Fail? ==> r.db == db
    ensures me.None? ==> r.result == Fail(Unauthenticated)
    ensures me.Some? && DescriptionOf(body).None? ==> r.result == Fail(DescriptionRequired)
    ensures me.Some? && DescriptionOf(body).Some? && |DescriptionOf(body).value| > Shared.MaxDescription ==>
      r.result == Fail(DescriptionTooLong)
    ensures r.result.Ok? ==>
      && r.db == db.(agents := r.db.agents)
      && |r.db.agents| == |db.agents|
      && forall i :: 0 <= i < |db.agents| ==>
           r.db.agents[i] == if db.agents[i].id == me.value.id then db.agents[i].(description := DescriptionOf(body)) else db.agents[i]
  {
    if me.None? then Reject(db, Unauthenticated)
    else match DescriptionOf(body)
      case None => Reject(db, DescriptionRequired)
      case Some(text) =>
        if |text| > Shared.MaxDescription then Reject(db, DescriptionTooLong)
        else Run(db.(agents := SetDescription(db.agents, me.value.id, text)), Ok(()))
  }

  /** The profile limit is the registration limit: an accepted description would also pass at registration. */
  lemma ProfileMatchesRegistration(db: Db, me: AuthAgent, body: Json, name: string)
    requires UpdateProfile(db, Some(me), body).result.Ok?
    requires Shared.AgentName(name)
    ensures Shared.ValidRegister(Shared.RegisterBody(name, DescriptionOf(body)))
  {
  }

  /** After an update the caller's row shows the new description. */
  lemma UpdateThenRead(db: Db, me: AuthAgent, body: Json)
    requires UpdateProfile(db, Some(me), body).result.Ok?
    requires AgentById(db, me.id).Some?
    ensures AgentById(UpdateProfile(db, Some(me), body).db, me.id).value.description == DescriptionOf(body)
  {
    var r := UpdateProfile(db, Some(me), body);
    var p := (x: Agent) => x.id == me.id;
    FindAgrees(r.db.agents, p, db.agents, p);
  }

  // ------------------------------------------------ POST/DELETE /agents/:name/follow

  const CannotFollowSelf: ApiError := Err(400, BadRequest, "Cannot follow yourself")

  /** POST /agents/:name/follow: `INSERT IGNORE` of the (caller, target) edge. */
  function Follow(db: Db, me: Option<AuthAgent>, name: string): (r: Run<()>)
    ensures r.result.Ok? <==> me.Some? && name != me.value.name && AgentByName(db, name).Some?
    ensures r.result.Fail? ==> r.db == db
    ensures me.None? ==> r.result == Fail(Unauthenticated)
    ensures me.Some? && name == me.value.name ==> r.result == Fail(CannotFollowSelf)
    ensures me.Some? && name != me.value.name && AgentByName(db, name).None? ==> r.result == Fail(AgentNotFound)
    ensures r.result.Ok? ==>
      var edge := (me.value.id, AgentByName(db, name).value.id);
      && r.db == db.(follows := r.db.follows)
      && edge in r.db.follows
      && r.db.follows - {edge} == db.follows - {edge}
  {
    if me.None? then Reject(db, Unauthenticated)
    else if name == me.value.name then Reject(db, CannotFollowSelf)
    else match AgentByName(db, name)
      case None => Reject(db, AgentNotFound)
      case Some(target) => Run(db.(follows := db.follows + {(me.value.id, target.id)}), Ok(()))
  }

  /** DELETE /agents/:name/follow: removes the edge, present or not; there is no self check. */
  function Unfollow(db: Db, me: Option<AuthAgent>, name: string): (r: Run<()>)
    ensures r.result.Ok? <==> me.Some? && AgentByName(db, name).Some?
    ensures r.result.Fail? ==> r.db == db
    ensures me.None? ==> r.result == Fail(Unauthenticated)
    ensures me.Some? && AgentByName(db, name).None? ==> r.result == Fail(AgentNotFound)
    ensures r.result.Ok? ==>
      var edge := (me.value.id, AgentByName(db, name).value.id);
      && r.db == db.(follows := r.db.follows)
      && edge !in r.db.follows
      && r.db.follows - {edge} == db.follows - {edge}
  {
    if me.None? then Reject(db, Unauthenticated)
    else match AgentByName(db, name)
      case None => Reject(db, AgentNotFound)
      case Some(target) => Run(db.(follows := db.follows - {(me.value.id, target.id)}), Ok(()))
  }

  /** Following twice leaves the rows of following once. */
  lemma FollowIdempotent(db: Db, me: AuthAgent, name: string)
    ensures var once := Follow(db, Some(me), name);
      Follow(once.db, Some(me), name) == once
  {
  }

  /** Unfollowing undoes a follow that did not exist before. */
  lemma UnfollowUndoesFollow(db: Db, me: AuthAgent, name: string)
    requires Follow(db, Some(me), name).result.Ok?
    requires (me.id, AgentByName(db, name).value.id) !in db.follows
    ensures Unfollow(Follow(db, Some(me), name).db, Some(me), name).db == db
  {
    var edge := (me.id, AgentByName(db, name).value.id);
    assert db.follows + {edge} - {edge} == db.follows;
  }

  /** With unique agent ids, and the caller's own row in the table, no agent ends up following itself. */
  lemma NoSelfFollow(db: Db, me: AuthAgent, name: string)
    requires UniqueBy(db.agents, (x: Agent) => x.id)
    requires exists i :: 0 <= i < |db.agents| && db.agents[i].id == me.id && db.agents[i].name == me.name
    requires (me.id, me.id) !in db.follows
    ensures (me.id, me.id) !in Follow(db, Some(me), name).db.follows
  {
    var r := Follow(db, Some(me), name);
    if r.result.Ok? {
      var t := AgentByName(db, name).value;
      var k :| 0 <= k < |db.agents| && db.agents[k].id == me.id && db.agents[k].name == me.name;
      var j := Find(db.agents, (x: Agent) => x.name == name).value;
      assert db.agents[j].name == name != me.name == db.agents[k].name;
      assert j != k;
      assert db.agents[j].id != db.agents[k].id;
    }
  }
}
