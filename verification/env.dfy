/**
 * The environment settings the API reads at start-up (apps/api/src/env.ts):
 * the zod schema's defaults and coercions, the `ALLOW_ANY_HOST` flag, and
 * the comma-separated host and origin lists.
 */
module Env {
  import opened Wrappers
  import Text
  import JsNumber

  /** A value handed to the `ALLOW_ANY_HOST` preprocessor. */
  datatype Raw = Undefined | Bool(b: bool) | Str(s: string) | Other

  /** `s` spells `word` (lower-case ASCII) with any mix of letter case. */
  predicate EqualsIgnoringCase(s: string, word: string) {
    |s| == |word| && forall i :: 0 <= i < |s| ==> s[i] == word[i] || (s[i] as int + 32 == word[i] as int && 'A' <= s[i] <= 'Z')
  }

  /** The `ALLOW_ANY_HOST` preprocessor: booleans pass through, strings are "1" or "true" in any case, all else is false. */
  function AllowAnyHost(v: Raw): (r: bool)
    ensures v.Undefined? || v.Other? ==> !r
    ensures v.Bool? ==> r == v.b
    ensures v.Str? ==> (r <==> v.s == "1" || EqualsIgnoringCase(v.s, "true"))
  {
    match v
    case Undefined => false
    case Bool(b) => b
    case Str(s) =>
      LowerIsIgnoringCase(s, "true");
      s == "1" || Text.LowerAscii(s) == "true"
    case Other => false
  }

  /** Lower-casing `s` gives the lower-case word exactly when `s` spells it in some case. */
  lemma LowerIsIgnoringCase(s: string, word: string)
    requires forall i :: 0 <= i < |word| ==> 'a' <= word[i] <= 'z'
    ensures Text.LowerAscii(s) == word <==> EqualsIgnoringCase(s, word)
  {
    var l := Text.LowerAscii(s);
    if EqualsIgnoringCase(s, word) {
      assert forall i :: 0 <= i < |s| ==> l[i] == word[i];
    }
    if l == word {
      forall i | 0 <= i < |s|
        ensures s[i] == word[i] || (s[i] as int + 32 == word[i] as int && 'A' <= s[i] <= 'Z')
      {
        assert l[i] == word[i];
      }
    }
  }

  /** `raw.split(",").map(trim).filter(Boolean)`. */
  function ListSetting(raw: string): (r: seq<string>)
    ensures forall i :: 0 <= i < |r| ==> |r[i]| > 0 && ',' !in r[i] && Text.NoSpaceAtEnds(r[i])
  {
    var pieces := Text.Split(raw, ',');
    var r := Text.TrimAndDropEmpty(pieces);
    forall i | 0 <= i < |r| ensures ',' !in r[i] {
      Text.TrimAndDropEmptyMember(pieces, r[i]);
      var j :| 0 <= j < |pieces| && Text.Trim(pieces[j]) == r[i];
      TrimIsInfix(pieces[j], ',');
    }
    r
  }

  lemma TrimIsInfix(s: string, c: char)
    requires c !in s
    ensures c !in Text.Trim(s)
  {
    var t := Text.TrimStart(s);
    var r := Text.TrimEnd(t);
    forall k | 0 <= k < |r| ensures r[k] != c {
      assert r[k] == t[k];
      assert t[k] == s[|s| - |t| + k];
    }
  }

  /** A list written out with commas reads back as itself when its entries are trimmed, non-empty and comma-free. */
  lemma ListSettingOfJoin(items: seq<string>)
    requires |items| >= 1
    requires forall i :: 0 <= i < |items| ==> |items[i]| > 0 && ',' !in items[i] && Text.NoSpaceAtEnds(items[i])
    ensures ListSetting(Text.Join(items, ',')) == items
  {
    Text.SplitJoin(items, ',');
    Text.TrimAndDropEmptyKeeps(items);
  }

  /** An entry is in the list iff it is the trimmed, non-empty form of one comma-separated piece. */
  lemma ListSettingMember(raw: string, x: string)
    ensures x in ListSetting(raw) <==>
      |x| > 0 && exists i :: 0 <= i < |Text.Split(raw, ',')| && Text.Trim(Text.Split(raw, ',')[i]) == x
  {
    Text.TrimAndDropEmptyMember(Text.Split(raw, ','), x);
  }

  const DefaultAllowedHosts: string := "localhost:3001,127.0.0.1:3001"
  const DefaultCorsOrigins: string := "http://localhost:5173"
  const DefaultPublicBaseUrl: string := "http://localhost:5173"
  const DefaultPort: int := 3001
  const DefaultDbPort: int := 3306

  /** The host list the API allows when `ALLOWED_HOSTS` is not set. */
  lemma DefaultHostList()
    ensures ListSetting(DefaultAllowedHosts) == ["localhost:3001", "127.0.0.1:3001"]
  {
    var items := ["localhost:3001", "127.0.0.1:3001"];
    assert Text.Join(items, ',') == DefaultAllowedHosts;
    assert ',' !in items[0] && ',' !in items[1];
    ListSettingOfJoin(items);
  }

  /** `Number.isInteger(n) && n > 0`: what `.int().positive()` accepts. */
  predicate IsPositiveInteger(n: JsNumber.Number) {
    n.Finite? && n.value == n.value.Floor as real && n.value > 0.0
  }

  /** `z.coerce.number().int().positive()` with a default for an unset variable; None is a schema error. */
  function PositiveInt(v: Option<string>, def: int): (r: Option<int>)
    ensures v.None? ==> r == Some(def)
    ensures v.Some? ==> (r.Some? <==> IsPositiveInteger(JsNumber.ToNumber(v.value)))
    ensures v.Some? && r.Some? ==> r.value > 0 && r.value as real == JsNumber.ToNumber(v.value).value
  {
    match v
    case None => Some(def)
    case Some(s) =>
      var n := JsNumber.ToNumber(s);
      if IsPositiveInteger(n) then Some(n.value.Floor) else None
  }

  /** A required string setting of at least `min` characters. */
  function Required(vars: map<string, string>, name: string, min: nat): (r: Option<string>)
    ensures r.Some? <==> name in vars && |vars[name]| >= min
    ensures r.Some? ==> r.value == vars[name]
  {
    if name in vars && |vars[name]| >= min then Some(vars[name]) else None
  }

  function Lookup(vars: map<string, string>, name: string): (r: Option<string>)
    ensures r.Some? <==> name in vars
    ensures r.Some? ==> r.value == vars[name]
  {
    if name in vars then Some(vars[name]) else None
  }

  /** The database connection settings. */
  datatype DbSettings = DbSettings(host: string, port: int, user: string, password: string, name: string)

  /** The server settings. */
  datatype ServerSettings = ServerSettings(
    nodeEnv: string, port: int, apiKeyPepper: string, publicBaseUrl: string,
    allowedHosts: seq<string>, allowAnyHost: bool, corsOrigins: seq<string>)

  datatype Settings = Settings(server: ServerSettings, db: DbSettings)

  /** The `DB_*` part of the schema. */
  function ParseDb(vars: map<string, string>): (r: Option<DbSettings>)
    ensures r.Some? <==>
      PositiveInt(Lookup(vars, "DB_PORT"), DefaultDbPort).Some?
      && "DB_HOST" in vars && |vars["DB_HOST"]| > 0 && "DB_USER" in vars && |vars["DB_USER"]| > 0
      && "DB_PASSWORD" in vars && |vars["DB_PASSWORD"]| > 0 && "DB_NAME" in vars && |vars["DB_NAME"]| > 0
    ensures r.Some? ==> r.value.port > 0 && r.value.host == vars["DB_HOST"]
    ensures r.Some? && "DB_PORT" !in vars ==> r.value.port == DefaultDbPort
  {
    var port := PositiveInt(Lookup(vars, "DB_PORT"), DefaultDbPort);
    var host := Required(vars, "DB_HOST", 1);
    var user := Required(vars, "DB_USER", 1);
    var password := Required(vars, "DB_PASSWORD", 1);
    var name := Required(vars, "DB_NAME", 1);
    if port.None? || host.None? || user.None? || password.None? || name.None? then None
    else Some(DbSettings(host.value, port.value, user.value, password.value, name.value))
  }

  /**
   * The server part of the schema and the derived host and origin lists;
   * `isUrl` is zod's `url()` check, which the default value goes through
   * as well.
   */
  function ParseServer(vars: map<string, string>, isUrl: string -> bool): (r: Option<ServerSettings>)
    ensures r.Some? <==>
      && PositiveInt(Lookup(vars, "PORT"), DefaultPort).Some? && "API_KEY_PEPPER" in vars && |vars["API_KEY_PEPPER"]| >= 16
      && isUrl(Lookup(vars, "PUBLIC_BASE_URL").GetOr(DefaultPublicBaseUrl))
    ensures r.Some? ==> r.value.publicBaseUrl == Lookup(vars, "PUBLIC_BASE_URL").GetOr(DefaultPublicBaseUrl)
    ensures r.Some? ==> r.value.port > 0
    ensures r.Some? && "PORT" !in vars ==> r.value.port == DefaultPort
    ensures r.Some? && "PORT" in vars ==> r.value.port as real == JsNumber.ToNumber(vars["PORT"]).value
    ensures r.Some? ==> r.value.allowedHosts == ListSetting(Lookup(vars, "ALLOWED_HOSTS").GetOr(DefaultAllowedHosts))
    ensures r.Some? ==> r.value.corsOrigins == ListSetting(Lookup(vars, "CORS_ORIGINS").GetOr(DefaultCorsOrigins))
    ensures r.Some? ==> r.value.allowAnyHost == AllowAnyHost(if "ALLOW_ANY_HOST" in vars then Str(vars["ALLOW_ANY_HOST"]) else Undefined)
  {
    var port := PositiveInt(Lookup(vars, "PORT"), DefaultPort);
    var pepper := Required(vars, "API_KEY_PEPPER", 16);
    var baseUrl := Lookup(vars, "PUBLIC_BASE_URL").GetOr(DefaultPublicBaseUrl);
    if port.None? || pepper.None? || !isUrl(baseUrl) then None
    else
      Some(ServerSettings(
        Lookup(vars, "NODE_ENV").GetOr("development"), port.value, pepper.value, baseUrl,
        ListSetting(Lookup(vars, "ALLOWED_HOSTS").GetOr(DefaultAllowedHosts)),
        AllowAnyHost(if "ALLOW_ANY_HOST" in vars then Str(vars["ALLOW_ANY_HOST"]) else Undefined),
        ListSetting(Lookup(vars, "CORS_ORIGINS").GetOr(DefaultCorsOrigins))))
  }

  /**
   * `EnvSchema.parse(process.env)` followed by the list splitting; None is
   * the start-up failure a schema violation causes.
   */
  function Parse(vars: map<string, string>, isUrl: string -> bool): (r: Option<Settings>)
    ensures r.Some? <==> ParseServer(vars, isUrl).Some? && ParseDb(vars).Some?
  {
    match (ParseServer(vars, isUrl), ParseDb(vars))
    case (Some(server), Some(db)) => Some(Settings(server, db))
    case _ => None
  }

  /** Without `ALLOWED_HOSTS` the API accepts exactly the two local hosts on port 3001. */
  lemma DefaultHostsWhenUnset(vars: map<string, string>, isUrl: string -> bool)
    requires "ALLOWED_HOSTS" !in vars && ParseServer(vars, isUrl).Some?
    ensures ParseServer(vars, isUrl).value.allowedHosts == ["localhost:3001", "127.0.0.1:3001"]
  {
    DefaultHostList();
  }

  /** A port written in decimal is read back as that port. */
  lemma PortOfDecimal(vars: map<string, string>, isUrl: string -> bool, n: nat)
    requires 0 < n < 65536 && "PORT" in vars && vars["PORT"] == JsNumber.NatToString(n)
    requires ParseServer(vars, isUrl).Some?
    ensures ParseServer(vars, isUrl).value.port == n
  {
    JsNumber.NumberOfNatString(n);
    assert JsNumber.ToNumber(vars["PORT"]).value == n as real;
  }
}
