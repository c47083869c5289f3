/**
 * The Host-header check in front of every route
 * (apps/api/src/middleware/hostCheck.ts).
 */
module HostCheck {
  import opened Wrappers
  import opened Json
  import opened Http
  import Env
  import Text

  /** The 421 error, listing the allowed hosts. */
  function Misdirected(allowedHosts: seq<string>): ApiError {
    ApiError(421, Forbidden, "Misdirected request (invalid Host)",
      Some([("allowed_hosts", JArr(seq(|allowedHosts|, i requires 0 <= i < |allowedHosts| => JStr(allowedHosts[i]))))]))
  }

  /** `hostCheck`: Ok is `next()`, Fail is `next(err)`. */
  function Check(allowAnyHost: bool, allowedHosts: seq<string>, host: Option<string>): (r: Outcome<()>)
    ensures r.Ok? <==> allowAnyHost || (host.Some? && host.value != "" && host.value in allowedHosts)
    ensures r.Fail? && (host.None? || host.value == "") ==> r.err == Err(400, BadRequest, "Missing Host header")
    ensures r.Fail? && host.Some? && host.value != "" ==> r.err == Misdirected(allowedHosts)
  {
    if allowAnyHost then Ok(())
    else if host.None? || host.value == "" then Fail(Err(400, BadRequest, "Missing Host header"))
    else if host.value !in allowedHosts then Fail(Misdirected(allowedHosts))
    else Ok(())
  }

  /**
   * With the list read from `ALLOWED_HOSTS`, a request passes iff its Host
   * header equals, exactly, one of the comma-separated entries once trimmed.
   */
  lemma PassesIffListed(raw: string, host: string)
    ensures Check(false, Env.ListSetting(raw), Some(host)).Ok? <==>
      host != "" && exists i :: 0 <= i < |Text.Split(raw, ',')| && Text.Trim(Text.Split(raw, ',')[i]) == host
  {
    Env.ListSettingMember(raw, host);
  }

  /** Under the default settings only the two local hosts on port 3001 pass. */
  lemma DefaultHosts(host: Option<string>)
    ensures Check(false, Env.ListSetting(Env.DefaultAllowedHosts), host).Ok? <==>
      host == Some("localhost:3001") || host == Some("127.0.0.1:3001")
  {
    Env.DefaultHostList();
    OnlyListed(Env.ListSetting(Env.DefaultAllowedHosts), host);
  }

  lemma OnlyListed(hosts: seq<string>, host: Option<string>)
    requires hosts == ["localhost:3001", "127.0.0.1:3001"]
    ensures Check(false, hosts, host).Ok? <==>
      host == Some("localhost:3001") || host == Some("127.0.0.1:3001")
  {
  }
}
