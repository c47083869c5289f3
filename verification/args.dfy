/**
 * The agent CLI's argument parser (packages/agent-cli/src/args.ts): the
 * first token is the command; `--` ends flag parsing; `--k=v` and
 * `--k v` set a string flag, a bare `--k` sets it to `true`; everything
 * else is a positional.
 */
module Args {
  import opened Wrappers
  import opened Text
  import JsNumber

  /** A flag's value: a string, or the boolean `true` of a bare flag. */
  datatype FlagValue = Str(s: string) | On

  datatype ParsedArgs = ParsedArgs(command: Option<string>, positionals: seq<string>, flags: map<string, FlagValue>)

  const FlagTag: string := "--"

  /** The first position of `c` in `s` (`indexOf`). */
  function IndexOfChar(s: string, c: char): (r: Option<nat>)
    ensures r.Some? ==> r.value < |s| && s[r.value] == c && c !in s[..r.value]
    ensures r.None? <==> c !in s
  {
    if |s| == 0 then None
    else if s[0] == c then Some(0)
    else match IndexOfChar(s[1..], c)
      case None => None
      case Some(i) =>
        assert s[..i + 1] == [s[0]] + s[1..][..i];
        Some(i + 1)
  }

  /** A token that can be the value of the flag before it: non-empty and not itself a flag. */
  predicate IsValue(t: string) {
    t != "" && !StartsWith(t, FlagTag)
  }

  /** The loop of `parseArgs` over the tokens after the command. */
  function Scan(toks: seq<string>, positionals: seq<string>, flags: map<string, FlagValue>): (r: ParsedArgs)
    ensures r.command.None?
    ensures forall p :: p in r.positionals ==> p in positionals || p in toks
    ensures |r.positionals| >= |positionals| && r.positionals[..|positionals|] == positionals
    ensures flags.Keys <= r.flags.Keys
    decreases |toks|
  {
    if |toks| == 0 then ParsedArgs(None, positionals, flags)
    else
      var tok := toks[0];
      if tok == FlagTag then ParsedArgs(None, positionals + toks[1..], flags)
      else if !StartsWith(tok, FlagTag) then Scan(toks[1..], positionals + [tok], flags)
      else match IndexOfChar(tok, '=')
        case Some(eq) =>
          Scan(toks[1..], positionals, flags[tok[2..eq] := Str(tok[eq + 1..])])
        case None =>
          var k := tok[2..];
          if |toks| > 1 && IsValue(toks[1]) then Scan(toks[2..], positionals, flags[k := Str(toks[1])])
          else Scan(toks[1..], positionals, flags[k := On])
  }

  /** `parseArgs` */
  function ParseArgs(argv: seq<string>): (r: ParsedArgs)
    ensures |argv| == 0 ==> r == ParsedArgs(None, [], map[])
    ensures |argv| > 0 ==> r.command == Some(argv[0])
    ensures forall p :: p in r.positionals ==> p in argv[1..]
  {
    if |argv| == 0 then ParsedArgs(None, [], map[])
    else Scan(argv[1..], [], map[]).(command := Some(argv[0]))
  }

  // -------------------------------------------------------------- what a scan does

  /** After `--`, every remaining token is a positional, flag-like or not. */
  lemma DoubleDashEndsFlags(rest: seq<string>, positionals: seq<string>, flags: map<string, FlagValue>)
    ensures Scan([FlagTag] + rest, positionals, flags) == ParsedArgs(None, positionals + rest, flags)
  {
    assert ([FlagTag] + rest)[1..] == rest;
  }

  /** Tokens that are not flags are positionals, in order. */
  lemma {:induction false} PlainTokensArePositionals(toks: seq<string>, positionals: seq<string>, flags: map<string, FlagValue>)
    requires forall i :: 0 <= i < |toks| ==> !StartsWith(toks[i], FlagTag)
    ensures Scan(toks, positionals, flags) == ParsedArgs(None, positionals + toks, flags)
    decreases |toks|
  {
    if |toks| > 0 {
      assert toks[0] != FlagTag by { assert StartsWith(FlagTag, FlagTag); }
      PlainTokensArePositionals(toks[1..], positionals + [toks[0]], flags);
      assert positionals + [toks[0]] + toks[1..] == positionals + toks;
    }
  }

  /** `--k=v` splits at the first `=`: the name has none, the value may hold more. */
  lemma FlagWithEquals(k: string, v: string, rest: seq<string>, positionals: seq<string>, flags: map<string, FlagValue>)
    requires '=' !in k
    ensures Scan([FlagTag + k + "=" + v] + rest, positionals, flags) == Scan(rest, positionals, flags[k := Str(v)])
  {
    var tok := FlagTag + k + "=" + v;
    assert tok[..2] == FlagTag;
    assert tok != FlagTag;
    assert tok[2..2 + |k|] == k && tok[2 + |k|] == '=' && tok[2 + |k| + 1..] == v;
    assert '=' !in tok[..2 + |k|] by {
      assert tok[..2 + |k|] == FlagTag + k;
    }
    assert IndexOfChar(tok, '=') == Some(2 + |k|);
    assert ([tok] + rest)[1..] == rest;
  }

  /** `--k v`: a following token that is a value is taken as the flag's value. */
  lemma FlagWithValue(k: string, v: string, rest: seq<string>, positionals: seq<string>, flags: map<string, FlagValue>)
    requires '=' !in k && k != "" && IsValue(v)
    ensures Scan([FlagTag + k, v] + rest, positionals, flags) == Scan(rest, positionals, flags[k := Str(v)])
  {
    var tok := FlagTag + k;
    var toks := [tok, v] + rest;
    assert tok[..2] == FlagTag && tok[2..] == k;
    assert '=' !in tok;
    assert toks[0] == tok && toks[1] == v;
    assert toks[2..] == rest;
  }

  /** A bare `--k` before a flag or at the end is `true`. */
  lemma BareFlag(k: string, rest: seq<string>, positionals: seq<string>, flags: map<string, FlagValue>)
    requires '=' !in k && k != ""
    requires |rest| == 0 || !IsValue(rest[0])
    ensures Scan([FlagTag + k] + rest, positionals, flags) == Scan(rest, positionals, flags[k := On])
  {
    var tok := FlagTag + k;
    assert tok[..2] == FlagTag && tok[2..] == k;
    assert '=' !in tok;
    assert ([tok] + rest)[1..] == rest;
  }

  /** A later setting of a flag replaces an earlier one. */
  lemma LaterFlagWins(k: string, v1: string, v2: string, rest: seq<string>, positionals: seq<string>, flags: map<string, FlagValue>)
    requires '=' !in k
    ensures Scan([FlagTag + k + "=" + v1, FlagTag + k + "=" + v2] + rest, positionals, flags)
         == Scan(rest, positionals, flags[k := Str(v2)])
  {
    var t1 := FlagTag + k + "=" + v1;
    var t2 := FlagTag + k + "=" + v2;
    FlagWithEquals(k, v1, [t2] + rest, positionals, flags);
    assert [t1, t2] + rest == [t1] + ([t2] + rest);
    FlagWithEquals(k, v2, rest, positionals, flags[k := Str(v1)]);
    assert flags[k := Str(v1)][k := Str(v2)] == flags[k := Str(v2)];
  }

  // ---------------------------------------------------------------- flag getters

  /** `getFlagString`: only string values. */
  function GetFlagString(flags: map<string, FlagValue>, name: string): (r: Option<string>)
    ensures r.Some? <==> name in flags && flags[name].Str?
    ensures r.Some? ==> flags[name] == Str(r.value)
  {
    if name in flags && flags[name].Str? then Some(flags[name].s) else None
  }

  /** `getFlagBoolean`: a bare flag, or the string "true". */
  function GetFlagBoolean(flags: map<string, FlagValue>, name: string): (r: bool)
    ensures r <==> name in flags && (flags[name] == On || flags[name] == Str("true"))
  {
    if name !in flags then false
    else match flags[name]
      case On => true
      case Str(s) => s == "true"
  }

  /** `getFlagNumber`: `Number` of a string flag, when finite. */
  function GetFlagNumber(flags: map<string, FlagValue>, name: string): (r: Option<real>)
    ensures r.Some? ==>
      GetFlagString(flags, name).Some? && JsNumber.ToNumber(GetFlagString(flags, name).value) == JsNumber.Finite(r.value)
    ensures r.Some? <==>
      GetFlagString(flags, name).Some? && JsNumber.ToNumber(GetFlagString(flags, name).value).IsFinite()
  {
    match GetFlagString(flags, name)
    case None => None
    case Some(v) =>
      var n := JsNumber.ToNumber(v);
      if n.IsFinite() then Some(n.value) else None
  }

  /** What `--k=v` sets is read back by the getters. */
  lemma EqualsFlagReadsBack(k: string, v: string)
    requires '=' !in k
    ensures var flags := ParseArgs(["cmd", FlagTag + k + "=" + v]).flags;
      && GetFlagString(flags, k) == Some(v)
      && GetFlagBoolean(flags, k) == (v == "true")
  {
    FlagWithEquals(k, v, [], [], map[]);
    assert ["cmd", FlagTag + k + "=" + v][1..] == [FlagTag + k + "=" + v] + [];
  }

  /** A bare flag reads as true and has no string value. */
  lemma BareFlagReadsBack(k: string)
    requires '=' !in k && k != ""
    ensures var flags := ParseArgs(["cmd", FlagTag + k]).flags;
      && GetFlagBoolean(flags, k)
      && GetFlagString(flags, k).None?
      && GetFlagNumber(flags, k).None?
  {
    BareFlag(k, [], [], map[]);
    assert ["cmd", FlagTag + k][1..] == [FlagTag + k] + [];
  }
}
