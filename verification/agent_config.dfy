/**
 * The agent CLI's config file (packages/agent-cli/src/config.ts): the API
 * key, an optional API base and an optional engagement policy; the policy
 * defaults; and how a key is masked for printing.
 */
module AgentConfig {
  import opened Wrappers
  import opened Json
  import opened Text
  import JsNumber

  // ---------------------------------------------------------------- the policy

  /** `EngagePolicy`: every field optional (`undefined` and `null` alike). */
  datatype Policy = Policy(
    requireClaimed: Option<bool>,
    feedSort: Option<string>,
    feedLimit: Option<real>,
    maxUpvotesPerRun: Option<real>,
    maxCommentsPerRun: Option<real>,
    commentTemplates: Option<seq<string>>,
    submoltsAllow: Option<seq<string>>,
    avoidAuthors: Option<seq<string>>,
    autoPostEveryHours: Option<real>,
    autoPostSubmolt: Option<string>,
    autoPostTitleTemplate: Option<string>,
    autoPostContentTemplate: Option<string>)

  /** What `defaultPolicy` returns: the first seven fields always set. */
  datatype Effective = Effective(
    requireClaimed: bool,
    feedSort: string,
    feedLimit: real,
    maxUpvotesPerRun: real,
    maxCommentsPerRun: real,
    commentTemplates: seq<string>,
    autoPostEveryHours: real,
    submoltsAllow: Option<seq<string>>,
    avoidAuthors: Option<seq<string>>,
    autoPostSubmolt: Option<string>,
    autoPostTitleTemplate: Option<string>,
    autoPostContentTemplate: Option<string>)

  const NoFields: Policy := Policy(None, None, None, None, None, None, None, None, None, None, None, None)

  const DefaultTemplates: seq<string> := [
    "Interesting take \U{2014} what made you land on this?",
    "Thanks for sharing. Any context/details you\U{2019}d add?",
    "Curious: what\U{2019}s the next step you\U{2019}re thinking about?"
  ]

  /** The policy of a config without one. */
  const Defaults: Effective := Effective(true, "new", 25.0, 3.0, 1.0, DefaultTemplates, 24.0, None, None, None, None, None)

  /** `defaultPolicy(p)`: each defaulted field is `p`'s when set, the default otherwise; the rest pass through. */
  function DefaultPolicy(p: Option<Policy>): (r: Effective)
    ensures p.None? ==> r == Defaults
    ensures p == Some(NoFields) ==> r == Defaults
  {
    var q := p.GetOr(NoFields);
    Effective(
      q.requireClaimed.GetOr(true),
      q.feedSort.GetOr("new"),
      q.feedLimit.GetOr(25.0),
      q.maxUpvotesPerRun.GetOr(3.0),
      q.maxCommentsPerRun.GetOr(1.0),
      q.commentTemplates.GetOr(DefaultTemplates),
      q.autoPostEveryHours.GetOr(24.0),
      q.submoltsAllow,
      q.avoidAuthors,
      q.autoPostSubmolt,
      q.autoPostTitleTemplate,
      q.autoPostContentTemplate)
  }

  /** An effective policy written back as a policy with every defaulted field set. */
  function Given(e: Effective): Policy {
    Policy(Some(e.requireClaimed), Some(e.feedSort), Some(e.feedLimit), Some(e.maxUpvotesPerRun),
      Some(e.maxCommentsPerRun), Some(e.commentTemplates), e.submoltsAllow, e.avoidAuthors,
      Some(e.autoPostEveryHours), e.autoPostSubmolt, e.autoPostTitleTemplate, e.autoPostContentTemplate)
  }

  /** Fields a policy sets are never replaced by defaults. */
  lemma SetFieldsWin(e: Effective)
    ensures DefaultPolicy(Some(Given(e))) == e
  {
  }

  /** Applying the defaults twice changes nothing. */
  lemma DefaultPolicyIdempotent(p: Option<Policy>)
    ensures DefaultPolicy(Some(Given(DefaultPolicy(p)))) == DefaultPolicy(p)
  {
    SetFieldsWin(DefaultPolicy(p));
  }

  /** A field set to a value is that value; a field left unset is the default. */
  lemma FieldByField(p: Policy)
    ensures p.maxUpvotesPerRun.Some? ==> DefaultPolicy(Some(p)).maxUpvotesPerRun == p.maxUpvotesPerRun.value
    ensures p.maxUpvotesPerRun.None? ==> DefaultPolicy(Some(p)).maxUpvotesPerRun == Defaults.maxUpvotesPerRun
    ensures p.commentTemplates.Some? ==> DefaultPolicy(Some(p)).commentTemplates == p.commentTemplates.value
    ensures p.commentTemplates.None? ==> DefaultPolicy(Some(p)).commentTemplates == DefaultTemplates
    ensures DefaultPolicy(Some(p)).submoltsAllow == p.submoltsAllow
  {
  }

  // ------------------------------------------------------- the policy from JSON

  /** A boolean member: absent or null is unset, a boolean is set, anything else is not a valid policy. */
  function BoolMember(v: Option<Json>): Option<Option<bool>> {
    match v
    case None => Some(None)
    case Some(JNull) => Some(None)
    case Some(JBool(b)) => Some(Some(b))
    case _ => None
  }

  function NumMember(v: Option<Json>): Option<Option<real>> {
    match v
    case None => Some(None)
    case Some(JNull) => Some(None)
    case Some(JNum(m, e)) => Some(Some(JsNumber.JsonValue(m, e)))
    case _ => None
  }

  function StrMember(v: Option<Json>): Option<Option<string>> {
    match v
    case None => Some(None)
    case Some(JNull) => Some(None)
    case Some(JStr(s)) => Some(Some(s))
    case _ => None
  }

  predicate AllStrings(items: seq<Json>) {
    forall i :: 0 <= i < |items| ==> items[i].JStr?
  }

  function Texts(items: seq<Json>): (r: seq<string>)
    requires AllStrings(items)
    ensures |r| == |items| && forall i :: 0 <= i < |items| ==> items[i] == JStr(r[i])
  {
    if |items| == 0 then [] else [items[0].s] + Texts(items[1..])
  }

  function StrsMember(v: Option<Json>): Option<Option<seq<string>>> {
    match v
    case None => Some(None)
    case Some(JNull) => Some(None)
    case Some(JArr(items)) => if AllStrings(items) then Some(Some(Texts(items))) else None
    case _ => None
  }

  /** `typeof v === "object" && v !== null`: objects and arrays. */
  predicate IsObject(j: Json) {
    j.JObj? || j.JArr?
  }

  /**
   * The policy a config's `policy` member holds, when every member it sets
   * has the declared type; `None` for a policy the source would cast
   * without checking.
   */
  function PolicyOf(j: Json): (r: Option<Policy>)
    ensures r.Some? ==> IsObject(j)
    ensures j.JArr? ==> r == Some(NoFields)
  {
    var ms := if j.JObj? then j.members else [];
    var a := BoolMember(Get(ms, "requireClaimed"));
    var b := StrMember(Get(ms, "feedSort"));
    var c := NumMember(Get(ms, "feedLimit"));
    var d := NumMember(Get(ms, "maxUpvotesPerRun"));
    var e := NumMember(Get(ms, "maxCommentsPerRun"));
    var f := StrsMember(Get(ms, "commentTemplates"));
    var g := StrsMember(Get(ms, "submoltsAllow"));
    var h := StrsMember(Get(ms, "avoidAuthors"));
    var i := NumMember(Get(ms, "autoPostEveryHours"));
    var k := StrMember(Get(ms, "autoPostSubmolt"));
    var l := StrMember(Get(ms, "autoPostTitleTemplate"));
    var m := StrMember(Get(ms, "autoPostContentTemplate"));
    if !(j.JObj? || j.JArr?) then None
    else if a.Some? && b.Some? && c.Some? && d.Some? && e.Some? && f.Some? && g.Some? && h.Some? && i.Some? && k.Some? && l.Some? && m.Some? then
      Some(Policy(a.value, b.value, c.value, d.value, e.value, f.value, g.value, h.value, i.value, k.value, l.value, m.value))
    else None
  }

  // ---------------------------------------------------------------- the config

  datatype Config = Config(apiKey: string, apiBase: Option<string>, policy: Option<Json>)

  datatype ConfigError =
    | Unreadable
    | BadJson
    | NotAnObject
    | ApiKeyRequired
    | ApiBaseNotString
    | PolicyNotObject

  datatype Loaded = Loaded(config: Config) | Invalid(error: ConfigError)

  /** The message each rejection throws; read and parse errors carry the runtime's own. */
  function Message(e: ConfigError): Option<string> {
    match e
    case NotAnObject => Some("Invalid config JSON (expected object)")
    case ApiKeyRequired => Some("Invalid config: apiKey required")
    case ApiBaseNotString => Some("Invalid config: apiBase must be string")
    case PolicyNotObject => Some("Invalid config: policy must be object")
    case _ => None
  }

  /** The shortest accepted key. */
  const MinKeyLength: nat := 8

  /** `loadAgentConfig`, given the file's text or `None` when it cannot be read. */
  function LoadAgentConfig(raw: Option<string>): (r: Loaded)
    ensures r.Loaded? ==> |r.config.apiKey| >= MinKeyLength
    ensures r.Loaded? ==>
      && raw.Some? && Parse(raw.value).Some? && Parse(raw.value).value.JObj?
      && var ms := Parse(raw.value).value.members;
         && Get(ms, "apiKey") == Some(JStr(r.config.apiKey))
         && (r.config.apiBase.None? <==> Get(ms, "apiBase").None?)
         && (r.config.apiBase.Some? ==> Get(ms, "apiBase") == Some(JStr(r.config.apiBase.value)))
         && r.config.policy == Get(ms, "policy")
    ensures r == Invalid(NotAnObject) <==> raw.Some? && Parse(raw.value).Some? && !IsObject(Parse(raw.value).value)
  {
    match raw
    case None => Invalid(Unreadable)
    case Some(text) =>
      match Parse(text)
      case None => Invalid(BadJson)
      case Some(j) =>
        if !IsObject(j) then Invalid(NotAnObject)
        else
          var ms := if j.JObj? then j.members else [];
          match Get(ms, "apiKey")
          case Some(JStr(key)) =>
            if |key| < MinKeyLength then Invalid(ApiKeyRequired)
            else
              var base := Get(ms, "apiBase");
              var policy := Get(ms, "policy");
              if base.Some? && !base.value.JStr? then Invalid(ApiBaseNotString)
              else if policy.Some? && !IsObject(policy.value) then Invalid(PolicyNotObject)
              else Loaded(Config(key, if base.Some? then Some(base.value.s) else None, policy))
          case _ => Invalid(ApiKeyRequired)
  }

  /** A config file written as `{"apiKey": k}` loads with the key and nothing else. */
  lemma KeyOnlyConfigLoads(key: string)
    requires |key| >= MinKeyLength
    ensures LoadAgentConfig(Some(StringifyFlat([("apiKey", key)]))) == Loaded(Config(key, None, None))
  {
    ParseStringifyFlat([("apiKey", key)]);
  }

  /** A config file written as `{"apiKey": k, "apiBase": b}` loads with both. */
  lemma KeyAndBaseConfigLoads(key: string, base: string)
    requires |key| >= MinKeyLength
    ensures LoadAgentConfig(Some(StringifyFlat([("apiKey", key), ("apiBase", base)]))) == Loaded(Config(key, Some(base), None))
  {
    var m := [("apiKey", key), ("apiBase", base)];
    ParseStringifyFlat(m);
    GetIsLast(AsJson(m), "apiKey", 0);
  }

  /** A key shorter than eight characters is refused whatever else the file holds. */
  lemma ShortKeyRefused(key: string)
    requires |key| < MinKeyLength
    ensures LoadAgentConfig(Some(StringifyFlat([("apiKey", key)]))) == Invalid(ApiKeyRequired)
  {
    ParseStringifyFlat([("apiKey", key)]);
  }

  // ---------------------------------------------------------------- masking

  const ShownPrefix: nat := 10
  const ShownTail: nat := 4
  const Ellipsis: char := '\U{2026}'

  /** `s.slice(-n)`: the last `n` characters, or all of a shorter string. */
  function Tail(s: string, n: nat): (r: string)
    ensures |r| == if |s| < n then |s| else n
    ensures r == s[|s| - |r|..]
  {
    if |s| < n then s else s[|s| - n..]
  }

  /** `maskApiKey`: the first ten characters, an ellipsis, the last four. */
  function MaskApiKey(apiKey: string): (r: string)
    ensures |r| == |Take(apiKey, ShownPrefix)| + 1 + |Tail(apiKey, ShownTail)|
    ensures StartsWith(r, Take(apiKey, ShownPrefix))
    ensures r[|Take(apiKey, ShownPrefix)|] == Ellipsis
    ensures r[|r| - |Tail(apiKey, ShownTail)|..] == Tail(apiKey, ShownTail)
  {
    var prefix := Take(apiKey, ShownPrefix);
    var r := prefix + [Ellipsis] + Tail(apiKey, ShownTail);
    assert r[..|prefix|] == prefix;
    r
  }

  /** The mask shows nothing between the first ten and the last four characters. */
  lemma MaskHidesMiddle(a: string, b: string)
    requires |a| == |b| >= ShownPrefix + ShownTail
    requires a[..ShownPrefix] == b[..ShownPrefix] && a[|a| - ShownTail..] == b[|b| - ShownTail..]
    ensures MaskApiKey(a) == MaskApiKey(b)
  {
  }

  /** A key of ten characters or more is masked to fifteen. */
  lemma MaskedLength(apiKey: string)
    requires |apiKey| >= ShownPrefix
    ensures |MaskApiKey(apiKey)| == ShownPrefix + 1 + ShownTail
  {
  }

  /** A key of at most ten characters is shown whole before the ellipsis. */
  lemma ShortKeyShownWhole(apiKey: string)
    requires |apiKey| <= ShownPrefix
    ensures StartsWith(MaskApiKey(apiKey), apiKey)
  {
  }
}
