/**
 * The agent CLI's entry point (packages/agent-cli/src/cli.ts): which
 * command a command line selects, the checks each command makes of its
 * flags, where the API key comes from and the API base each command uses.
 * The environment and the config file are parameters; what a command then
 * does over the network is the client's and the engage loop's business.
 */
module Cli {
  import opened Wrappers
  import opened Text
  import opened Args
  import opened AgentConfig
  import Client

  /** The help text: every command and its flags. */
  const UsageLines: seq<string> := [
    "moltbook-agent CLI",
    "",
    "Commands:",
    "  register --name <string> [--description <string>] [--apiBase <url>]",
    "  post --submolt <name> --title <string> [--content <string> | --url <url>] [--apiBase <url>] [--apiKey <key> | --config <path>]",
    "  engage --config <path> --once",
    "",
    "Notes:",
    "  - Default apiBase: http://localhost:3001/api/v1",
    "  - For auth-required commands, apiKey is read from --apiKey, --config, or $MOLTBOOK_API_KEY"
  ]

  const Usage: string := Join(UsageLines, '\n')

  /** Where `engage` keeps its state, relative to the project root. */
  const StatePath: string := "memory/agent-state.json"

  /** JavaScript truthiness of an optional string: present and non-empty. */
  predicate Truthy(v: Option<string>) {
    v.Some? && v.value != ""
  }

  // ------------------------------------------------------------ API base

  /** `getDefaultApiBase`: the given base, or the local default, without trailing slashes. */
  function DefaultApiBaseOf(v: Option<string>): (r: string)
    ensures |r| == 0 || r[|r| - 1] != '/'
    ensures StartsWith(v.GetOr(Client.DefaultApiBase), r)
  {
    StripTrailing(v.GetOr(Client.DefaultApiBase), '/')
  }

  /** Without a flag the base is the local server's API root. */
  lemma DefaultApiBaseIsLocal()
    ensures DefaultApiBaseOf(None) == "http://localhost:3001/api/v1"
  {
    var d := Client.DefaultApiBase;
    assert d[|d| - 1] == '1';
  }

  /** Any number of trailing slashes on the flag are dropped, and a clean base is kept as given. */
  lemma ApiBaseDropsTrailingSlashes(v: string, n: nat)
    ensures DefaultApiBaseOf(Some(v + Repeat('/', n))) == DefaultApiBaseOf(Some(v))
    ensures |v| == 0 || v[|v| - 1] != '/' ==> DefaultApiBaseOf(Some(v)) == v
  {
    StripTrailingRun(v, '/', n);
  }

  // ------------------------------------------------------------ API key

  /** Where the environment may hold a key. */
  datatype Environment = Environment(moltbookApiKey: Option<string>, agentApiKey: Option<string>)

  datatype KeySource = Resolved(key: Option<string>) | ConfigFailed(error: ConfigError)

  /**
   * `resolveApiKey`: the first of the `--apiKey` flag, `$MOLTBOOK_API_KEY`
   * and `$AGENT_API_KEY` that is defined, if it is non-empty; otherwise the
   * key of the config file named by `--config`, whose text `read` gives.
   */
  function ResolveApiKey(flags: map<string, FlagValue>, env: Environment, read: string -> Option<string>): (r: KeySource)
    ensures r.Resolved? && r.key.Some? ==> r.key.value != ""
    ensures r.ConfigFailed? ==> Truthy(GetFlagString(flags, "config"))
  {
    var first := OrElse(OrElse(GetFlagString(flags, "apiKey"), env.moltbookApiKey), env.agentApiKey);
    if Truthy(first) then Resolved(first)
    else
      var cfg := GetFlagString(flags, "config");
      if !Truthy(cfg) then Resolved(None)
      else match LoadAgentConfig(read(cfg.value))
        case Loaded(config) => Resolved(Some(config.apiKey))
        case Invalid(e) => ConfigFailed(e)
  }

  /** A non-empty `--apiKey` wins over everything else. */
  lemma FlagKeyWins(flags: map<string, FlagValue>, env: Environment, read: string -> Option<string>, key: string)
    requires "apiKey" in flags && flags["apiKey"] == Str(key) && key != ""
    ensures ResolveApiKey(flags, env, read) == Resolved(Some(key))
  {
  }

  /** Without the flag, `$MOLTBOOK_API_KEY` comes next, then `$AGENT_API_KEY`. */
  lemma EnvironmentKeyOrder(flags: map<string, FlagValue>, env: Environment, read: string -> Option<string>)
    requires GetFlagString(flags, "apiKey").None?
    ensures Truthy(env.moltbookApiKey) ==> ResolveApiKey(flags, env, read) == Resolved(env.moltbookApiKey)
    ensures env.moltbookApiKey.None? && Truthy(env.agentApiKey) ==> ResolveApiKey(flags, env, read) == Resolved(env.agentApiKey)
  {
  }

  /**
   * The config file is read only when the first defined of the three is
   * missing or empty; an empty value stops the search, so a later source
   * is not consulted.
   */
  lemma ConfigKeyLast(flags: map<string, FlagValue>, env: Environment, read: string -> Option<string>)
    requires !Truthy(OrElse(OrElse(GetFlagString(flags, "apiKey"), env.moltbookApiKey), env.agentApiKey))
    requires Truthy(GetFlagString(flags, "config"))
    ensures var loaded := LoadAgentConfig(read(flags["config"].s));
      && (loaded.Loaded? ==> ResolveApiKey(flags, env, read) == Resolved(Some(loaded.config.apiKey)))
      && (loaded.Invalid? ==> ResolveApiKey(flags, env, read) == ConfigFailed(loaded.error))
  {
  }

  /** With nothing in the flags or the environment and no config file, there is no key. */
  lemma NoKeyAnywhere(flags: map<string, FlagValue>, env: Environment, read: string -> Option<string>)
    requires !Truthy(OrElse(OrElse(GetFlagString(flags, "apiKey"), env.moltbookApiKey), env.agentApiKey))
    requires !Truthy(GetFlagString(flags, "config"))
    ensures ResolveApiKey(flags, env, read) == Resolved(None)
  {
  }

  // ------------------------------------------------------------ commands

  /** What a command line leads to: a request to make, or the message the CLI exits with. */
  datatype Command =
    | ShowUsage
    | Register(apiBase: string, name: string, description: Option<string>)
    | Post(apiKey: string, postBase: Option<string>, submolt: string, title: string, content: Option<string>, url: Option<string>)
    | Engage(configPath: string, statePath: string)
    | Fail(message: string)
    | FailConfig(error: ConfigError)

  const NameRequired: string := "register: --name is required"
  const SubmoltRequired: string := "post: --submolt is required"
  const TitleRequired: string := "post: --title is required"
  const OneBodyRequired: string := "post: exactly one of --content or --url is required"
  const KeyMissing: string := "post: apiKey missing (use --apiKey, --config, or $MOLTBOOK_API_KEY)"
  const ConfigRequired: string := "engage: --config is required"
  const OnceRequired: string := "engage: --once is required"

  predicate AsksForHelp(parsed: ParsedArgs) {
    !Truthy(parsed.command) || parsed.command.value == "help" || GetFlagBoolean(parsed.flags, "help")
  }

  function RegisterCommand(flags: map<string, FlagValue>): Command {
    var name := GetFlagString(flags, "name");
    var apiBase := DefaultApiBaseOf(GetFlagString(flags, "apiBase"));
    if !Truthy(name) then Fail(NameRequired)
    else Register(apiBase, name.value, GetFlagString(flags, "description"))
  }

  function PostCommand(flags: map<string, FlagValue>, env: Environment, read: string -> Option<string>): Command {
    var submolt := GetFlagString(flags, "submolt");
    var title := GetFlagString(flags, "title");
    var content := GetFlagString(flags, "content");
    var url := GetFlagString(flags, "url");
    if !Truthy(submolt) then Fail(SubmoltRequired)
    else if !Truthy(title) then Fail(TitleRequired)
    else if Truthy(content) == Truthy(url) then Fail(OneBodyRequired)
    else match ResolveApiKey(flags, env, read)
      case ConfigFailed(e) => FailConfig(e)
      case Resolved(key) =>
        if !Truthy(key) then Fail(KeyMissing)
        else Post(key.value, GetFlagString(flags, "apiBase"), submolt.value, title.value, content, url)
  }

  function EngageCommand(flags: map<string, FlagValue>): Command {
    var config := GetFlagString(flags, "config");
    if !Truthy(config) then Fail(ConfigRequired)
    else if !GetFlagBoolean(flags, "once") then Fail(OnceRequired)
    else Engage(config.value, StatePath)
  }

  /** `main`, from the command line after the program name. */
  function Dispatch(argv: seq<string>, env: Environment, read: string -> Option<string>): (r: Command)
    ensures AsksForHelp(ParseArgs(argv)) <==> r.ShowUsage?
  {
    var parsed := ParseArgs(argv);
    var flags := parsed.flags;
    if AsksForHelp(parsed) then ShowUsage
    else
      var cmd := parsed.command.value;
      if cmd == "register" then RegisterCommand(flags)
      else if cmd == "post" then PostCommand(flags, env, read)
      else if cmd == "engage" then EngageCommand(flags)
      else Fail("Unknown command: " + cmd + "\n\n" + Usage)
  }

  /** A command line is a known command exactly when it is `register`, `post` or `engage`; anything else fails with the usage. */
  lemma UnknownCommandFails(argv: seq<string>, env: Environment, read: string -> Option<string>)
    requires !AsksForHelp(ParseArgs(argv))
    requires ParseArgs(argv).command.value !in {"register", "post", "engage"}
    ensures Dispatch(argv, env, read) == Fail("Unknown command: " + ParseArgs(argv).command.value + "\n\n" + Usage)
  {
  }

  /**
   * A post goes out exactly when it names a submolt and a title, gives
   * exactly one of content and url, and a key is found; the key is the one
   * `ResolveApiKey` finds.
   */
  lemma PostRequirements(argv: seq<string>, env: Environment, read: string -> Option<string>)
    requires !AsksForHelp(ParseArgs(argv)) && ParseArgs(argv).command == Some("post")
    ensures var flags := ParseArgs(argv).flags;
      Dispatch(argv, env, read).Post? <==>
        && Truthy(GetFlagString(flags, "submolt"))
        && Truthy(GetFlagString(flags, "title"))
        && Truthy(GetFlagString(flags, "content")) != Truthy(GetFlagString(flags, "url"))
        && ResolveApiKey(flags, env, read).Resolved?
        && ResolveApiKey(flags, env, read).key.Some?
    ensures var flags := ParseArgs(argv).flags;
      var r := Dispatch(argv, env, read);
      r.Post? ==>
        && Resolved(Some(r.apiKey)) == ResolveApiKey(flags, env, read)
        && Some(r.submolt) == GetFlagString(flags, "submolt") && Some(r.title) == GetFlagString(flags, "title")
        && r.content == GetFlagString(flags, "content") && r.url == GetFlagString(flags, "url")
        && r.postBase == GetFlagString(flags, "apiBase")
  {
  }

  /** `engage` runs exactly when it has both a config path and `--once`, and always uses the fixed state file. */
  lemma EngageRequirements(argv: seq<string>, env: Environment, read: string -> Option<string>)
    requires !AsksForHelp(ParseArgs(argv)) && ParseArgs(argv).command == Some("engage")
    ensures var flags := ParseArgs(argv).flags;
      Dispatch(argv, env, read).Engage? <==> Truthy(GetFlagString(flags, "config")) && GetFlagBoolean(flags, "once")
    ensures var r := Dispatch(argv, env, read);
      r.Engage? ==> r.statePath == StatePath && Some(r.configPath) == GetFlagString(ParseArgs(argv).flags, "config")
    ensures var flags := ParseArgs(argv).flags;
      !Truthy(GetFlagString(flags, "config")) ==> Dispatch(argv, env, read) == Fail(ConfigRequired)
  {
  }

  /** `register` needs a name; its base is the flag or the default, trailing slashes removed. */
  lemma RegisterRequirements(argv: seq<string>, env: Environment, read: string -> Option<string>)
    requires !AsksForHelp(ParseArgs(argv)) && ParseArgs(argv).command == Some("register")
    ensures var flags := ParseArgs(argv).flags;
      Dispatch(argv, env, read).Register? <==> Truthy(GetFlagString(flags, "name"))
    ensures var r := Dispatch(argv, env, read);
      r.Register? ==>
        && r.apiBase == DefaultApiBaseOf(GetFlagString(ParseArgs(argv).flags, "apiBase"))
        && (|r.apiBase| == 0 || r.apiBase[|r.apiBase| - 1] != '/')
  {
  }
}
