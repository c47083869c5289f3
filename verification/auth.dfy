/**
 * `authRequired` (apps/api/src/middleware/auth.ts): the bearer header
 * carries an API key; its prefix selects a key row joined with its agent,
 * and the key is accepted when that row is not revoked and stores the
 * key's hash. The hash (HMAC-SHA256 under the server's pepper) is a
 * parameter.
 */
module Auth {
  import opened Wrappers
  import opened Json
  import opened Http
  import opened Text
  import opened Schema
  import opened Keys

  /** The agent a request is authenticated as. */
  datatype AuthAgent = AuthAgent(id: string, name: string, status: AgentStatus, description: Option<string>)

  const BearerTag: string := "Bearer "

  /** The shortest random part a key may have. */
  const MinKeyPart: nat := 16

  /** The 401 for a missing or non-bearer header, with a hint about redirects. */
  const MissingBearer: ApiError := ApiError(401, Unauthorized, "Missing or invalid API key",
    Some([("hint", JStr("Avoid redirects; redirects can strip Authorization headers."))]))

  /** A key of the right shape: the tag and at least 16 more characters. */
  predicate WellFormedKey(apiKey: string) {
    StartsWith(apiKey, KeyTag) && |apiKey| >= |KeyTag| + MinKeyPart
  }

  /**
   * The key a header carries: absent or empty headers and headers not
   * starting with "Bearer " get the hinted 401; the rest of the header,
   * trimmed, must be a well-formed key.
   */
  function BearerKey(header: Option<string>): (r: Outcome<string>)
    ensures header.None? || header == Some("") || !StartsWith(header.value, BearerTag) ==> r == Fail(MissingBearer)
    ensures header.Some? && StartsWith(header.value, BearerTag) ==>
      var key := Trim(header.value[|BearerTag|..]);
      && (WellFormedKey(key) ==> r == Ok(key))
      && (!WellFormedKey(key) ==> r == Fail(Unauthenticated))
  {
    if header.None? || header.value == "" || !StartsWith(header.value, BearerTag) then Fail(MissingBearer)
    else
      var key := Trim(header.value[|BearerTag|..]);
      if WellFormedKey(key) then Ok(key) else Fail(Unauthenticated)
  }

  /** The lookup prefix: the first 12 characters after the tag. */
  function LookupPrefix(apiKey: string): (r: string)
    requires WellFormedKey(apiKey)
    ensures |r| == PrefixLength
    ensures StartsWith(apiKey, KeyTag + r)
  {
    var keyPart := Drop(apiKey, |KeyTag|);
    var r := Take(keyPart, PrefixLength);
    assert apiKey[..|KeyTag| + |r|] == KeyTag + r;
    r
  }

  /** The key query: the first key row with the prefix whose agent exists. */
  function KeyRow(db: Db, prefix: string): (r: Option<nat>)
    ensures r.Some? ==>
      r.value < |db.apiKeys| && db.apiKeys[r.value].prefix == prefix && AgentById(db, db.apiKeys[r.value].agentId).Some?
    ensures r.None? <==> forall i :: 0 <= i < |db.apiKeys| ==>
      db.apiKeys[i].prefix != prefix || AgentById(db, db.apiKeys[i].agentId).None?
  {
    Find(db.apiKeys, (k: ApiKeyRow) => k.prefix == prefix && AgentById(db, k.agentId).Some?)
  }

  function AgentOf(a: Agent): AuthAgent {
    AuthAgent(a.id, a.name, a.status, a.description)
  }

  /**
   * `authRequired` with the `Authorization` header `header` and the key
   * hash `hash`: the authenticated agent, or the 401 the request gets.
   */
  function Authenticate(db: Db, header: Option<string>, hash: string -> seq<bv8>): (r: Outcome<AuthAgent>)
    ensures BearerKey(header).Fail? ==> r == Fail(BearerKey(header).err)
    ensures r.Fail? ==> r.err == MissingBearer || r.err == Unauthenticated
    ensures r.Ok? <==>
      && BearerKey(header).Ok?
      && var key := BearerKey(header).value;
         var row := KeyRow(db, LookupPrefix(key));
         && row.Some?
         && !db.apiKeys[row.value].revoked
         && db.apiKeys[row.value].keyHash == hash(key)
    ensures r.Ok? ==>
      var k := db.apiKeys[KeyRow(db, LookupPrefix(BearerKey(header).value)).value];
      r.value == AgentOf(AgentById(db, k.agentId).value)
  {
    match BearerKey(header)
    case Fail(e) => Fail(e)
    case Ok(key) =>
      match KeyRow(db, LookupPrefix(key))
      case None => Fail(Unauthenticated)
      case Some(i) =>
        var k := db.apiKeys[i];
        if k.revoked || !TimingSafeEqual(k.keyHash, hash(key)) then Fail(Unauthenticated)
        else Ok(AgentOf(AgentById(db, k.agentId).value))
  }

  // ------------------------------------------------------- created keys

  /** A random part `nanoid` draws has no white space at either end. */
  lemma NanoidHasNoSpace(keyPart: string)
    requires NanoidKeyPart(keyPart)
    ensures NoSpaceAtEnds(KeyTag + keyPart)
  {
    var s := KeyTag + keyPart;
    assert s[|s| - 1] == keyPart[|keyPart| - 1];
  }

  /**
   * A created key sent as a bearer token passes the format checks, and
   * the prefix the middleware extracts is the prefix `createApiKey` stored.
   */
  lemma CreatedKeyIsAccepted(keyPart: string)
    requires NanoidKeyPart(keyPart)
    ensures var created := CreateApiKey(keyPart);
      && BearerKey(Some(BearerTag + created.apiKey)) == Ok(created.apiKey)
      && LookupPrefix(created.apiKey) == created.prefix
  {
    var created := CreateApiKey(keyPart);
    BearerKeyOfRest(created.apiKey);
    NanoidHasNoSpace(keyPart);
    assert Drop(created.apiKey, |KeyTag|) == keyPart;
  }

  /** A bearer header is judged by its trimmed remainder alone. */
  lemma BearerKeyOfRest(rest: string)
    ensures BearerKey(Some(BearerTag + rest)) ==
      if WellFormedKey(Trim(rest)) then Ok(Trim(rest)) else Fail(Unauthenticated)
  {
    var h := BearerTag + rest;
    assert h[..|BearerTag|] == BearerTag;
    assert h[|BearerTag|..] == rest;
  }

  /** Space around the key inside the header is ignored. */
  lemma SpaceAroundKeyIgnored(key: string, before: string, after: string)
    requires AllSpace(before) && AllSpace(after) && |key| > 0 && NoSpaceAtEnds(key)
    ensures BearerKey(Some(BearerTag + (before + key + after))) == BearerKey(Some(BearerTag + key))
  {
    BearerKeyOfRest(before + key + after);
    BearerKeyOfRest(key);
    TrimAroundSpace(before, key, after);
  }

  lemma TrimAroundSpace(before: string, key: string, after: string)
    requires AllSpace(before) && AllSpace(after) && |key| > 0 && NoSpaceAtEnds(key)
    ensures Trim(before + key + after) == key
  {
    var s := before + key + after;
    TrimStartSkips(before, key + after);
    assert s == before + (key + after);
    var t := TrimStart(s);
    assert t == key + after;
    TrimEndSkips(key, after);
  }

  /** A revoked key row never lets its key in. */
  lemma RevokedKeyRefused(db: Db, header: Option<string>, hash: string -> seq<bv8>)
    requires BearerKey(header).Ok?
    requires var row := KeyRow(db, LookupPrefix(BearerKey(header).value));
      row.Some? && db.apiKeys[row.value].revoked
    ensures Authenticate(db, header, hash) == Fail(Unauthenticated)
  {
  }
}
