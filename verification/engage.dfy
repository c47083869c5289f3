/**
 * One engagement tick of the agent CLI (packages/agent-cli/src/engage.ts):
 * read the agent's status, stop unless it is claimed (when the policy
 * requires that), then upvote and comment on feed posts it has not acted
 * on, within the policy's per-run caps, and post a heartbeat report when
 * the last one is old enough. The API's answers, the clock, the date
 * parser and the state file's path are parameters; the model returns the
 * calls the tick makes, in order, with the next state and the summary.
 */
module Engage {
  import opened Wrappers
  import opened Text
  import opened Records
  import opened AgentState
  import opened AgentConfig
  import JsNumber

  datatype FeedItem = FeedItem(id: string, title: string, submolt: string, author: string)

  /** The answer of the best-effort DM check. */
  datatype DmCheck = DmCheck(hasNew: bool, pendingRequests: int)

  /** A call the tick makes to the API, after the status and DM checks. */
  datatype Action =
    | ListFeed(sort: string, limit: real)
    | Upvote(postId: string)
    | Comment(postId: string, content: string)
    | CreatePost(submolt: string, title: string, content: string)

  datatype Summary = Summary(status: string, feedItems: nat, upvoted: nat, commented: nat, createdPost: bool, dm: Option<DmCheck>)

  /**
   * What the tick sees: the agent's status, the DM check (`None` when it
   * failed), the feed, the time as ISO text and as milliseconds, the state
   * file's path relative to the working directory, and which API call, if
   * any, answers with an error: `Some(0)` for the status read, `Some(k)`
   * for the k-th call after it (the calls of `Action`, in order).
   */
  datatype World = World(status: string, dm: Option<DmCheck>, feed: seq<FeedItem>, now: string, nowMs: real, statePath: string,
                         failsAt: Option<nat>)

  /** A finished tick, or one that threw after making some calls (no state is saved then). */
  datatype Run = Done(state: State, summary: Summary, actions: seq<Action>) | Crashed(actions: seq<Action>)

  const Claimed: string := "claimed"

  // ------------------------------------------------------------ choosing a template

  const Modulus: nat := 0x1_0000_0000

  /** The rolling hash of `pickTemplate`: `h = (h * 31 + code) >>> 0` over the characters. */
  function Hash(seed: string): (h: nat)
    ensures h < Modulus
  {
    if |seed| == 0 then 0
    else (Hash(seed[..|seed| - 1]) * 31 + seed[|seed| - 1] as nat) % Modulus
  }

  /** The same polynomial without the wrap-around: sum of code(s[i]) * 31^(n-1-i). */
  function Poly(seed: string): nat {
    if |seed| == 0 then 0
    else Poly(seed[..|seed| - 1]) * 31 + seed[|seed| - 1] as nat
  }

  lemma ModStep(a: nat, c: nat)
    ensures ((a % Modulus) * 31 + c) % Modulus == (a * 31 + c) % Modulus
  {
    var q := a / Modulus;
    assert a * 31 + c == (q * 31) * Modulus + ((a % Modulus) * 31 + c);
    ModAddMultiple(q * 31, (a % Modulus) * 31 + c);
  }

  lemma ModAddMultiple(k: nat, x: nat)
    ensures (k * Modulus + x) % Modulus == x % Modulus
  {
    var y := k * Modulus + x;
    assert y == (k + x / Modulus) * Modulus + x % Modulus;
  }

  /** Wrapping at every step is the polynomial taken modulo 2^32. */
  lemma {:induction false} HashIsPolyMod(seed: string)
    ensures Hash(seed) == Poly(seed) % Modulus
  {
    if |seed| > 0 {
      var init := seed[..|seed| - 1];
      HashIsPolyMod(init);
      ModStep(Poly(init), seed[|seed| - 1] as nat);
    }
  }

  /** `pickTemplate`; `None` where the source indexes an empty list. */
  function PickTemplate(templates: seq<string>, seed: string): (r: Option<string>)
    ensures r.None? <==> |templates| == 0
    ensures r.Some? ==> r.value == templates[Poly(seed) % Modulus % |templates|]
  {
    if |templates| == 0 then None
    else
      HashIsPolyMod(seed);
      Some(templates[Hash(seed) % |templates|])
  }

  // ------------------------------------------------------------ interpolation

  /** A `\w` character. */
  predicate WordChar(c: char) {
    'a' <= c <= 'z' || 'A' <= c <= 'Z' || '0' <= c <= '9' || c == '_'
  }

  predicate IsWord(s: string) {
    forall i :: 0 <= i < |s| ==> WordChar(s[i])
  }

  /** The longest run of word characters `s` starts with. */
  function WordPrefix(s: string): (r: string)
    ensures |r| <= |s| && r == s[..|r|] && IsWord(r)
    ensures |r| < |s| ==> !WordChar(s[|r|])
  {
    if |s| == 0 || !WordChar(s[0]) then ""
    else
      var rest := WordPrefix(s[1..]);
      assert s[..|rest| + 1] == [s[0]] + rest;
      [s[0]] + rest
  }

  const Open: string := "{{"
  const Close: string := "}}"

  /** A match of `\{\{(\w+)\}\}` at the start of `t`: the name and what follows the match. */
  function Placeholder(t: string): (r: Option<(string, string)>)
    ensures r.Some? ==> |r.value.1| < |t|
    ensures r.Some? ==> |r.value.0| > 0 && IsWord(r.value.0) && t == Open + r.value.0 + Close + r.value.1
  {
    if StartsWith(t, Open) then
      var name := WordPrefix(t[2..]);
      var after := t[2 + |name|..];
      if |name| > 0 && StartsWith(after, Close) then
        assert t == Open + name + Close + after[2..];
        Some((name, after[2..]))
      else None
    else None
  }

  /** The methods every object literal inherits from `Object.prototype`, besides its `constructor`. */
  const PrototypeMethods: seq<string> := [
    "__defineGetter__", "__defineSetter__", "hasOwnProperty", "__lookupGetter__", "__lookupSetter__",
    "isPrototypeOf", "propertyIsEnumerable", "toString", "valueOf", "toLocaleString"]

  /**
   * `vars[k]` for a name the object does not own: the member inherited
   * from `Object.prototype`, as the text `replace` makes of it (a built-in
   * function prints as V8 writes native code; `__proto__` is the prototype
   * object itself), or nothing.
   */
  function Inherited(k: string): Option<string> {
    if k == "constructor" then Some("function Object() { [native code] }")
    else if k == "__proto__" then Some("[object Object]")
    else if k in PrototypeMethods then Some("function " + k + "() { [native code] }")
    else None
  }

  /** Every inherited member has a name of at least seven characters. */
  lemma ShortNameNotInherited(k: string)
    requires |k| < 7
    ensures Inherited(k).None?
  {
    assert forall i :: 0 <= i < |PrototypeMethods| ==> |PrototypeMethods[i]| >= 7;
  }

  /** `vars[k] ?? ""` on an object literal: its own entry, else an inherited member, else "". */
  function Property(vars: Record<string>, k: string): (r: string)
    ensures Lookup(vars, k).Some? ==> r == Lookup(vars, k).value
    ensures Lookup(vars, k).None? ==> r == Inherited(k).GetOr("")
  {
    match Lookup(vars, k)
    case Some(v) => v
    case None => Inherited(k).GetOr("")
  }

  /** `interpolate`: every placeholder, left to right, replaced by what `vars[k] ?? ""` reads. */
  function Interpolate(t: string, vars: Record<string>): string
    decreases |t|
  {
    if |t| == 0 then ""
    else match Placeholder(t)
      case Some((name, rest)) => Property(vars, name) + Interpolate(rest, vars)
      case None => [t[0]] + Interpolate(t[1..], vars)
  }

  /** A template as the text it is written in: literal runs and named holes. */
  datatype Piece = Lit(text: string) | Var(name: string)

  predicate WellFormedPiece(p: Piece) {
    match p
    case Lit(s) => '{' !in s
    case Var(k) => |k| > 0 && IsWord(k)
  }

  function Print(ps: seq<Piece>): string {
    if |ps| == 0 then ""
    else (match ps[0] case Lit(s) => s case Var(k) => Open + k + Close) + Print(ps[1..])
  }

  /** What a template means: literals kept, each hole filled as `vars[k] ?? ""` reads. */
  function Render(ps: seq<Piece>, vars: Record<string>): string {
    if |ps| == 0 then ""
    else (match ps[0] case Lit(s) => s case Var(k) => Property(vars, k)) + Render(ps[1..], vars)
  }

  lemma {:induction false} LiteralPassesThrough(lit: string, rest: string, vars: Record<string>)
    requires '{' !in lit
    ensures Interpolate(lit + rest, vars) == lit + Interpolate(rest, vars)
    decreases |lit|
  {
    if |lit| > 0 {
      var t := lit + rest;
      assert t[0] == lit[0] && !StartsWith(t, Open);
      assert t[1..] == lit[1..] + rest;
      LiteralPassesThrough(lit[1..], rest, vars);
      assert lit == [lit[0]] + lit[1..];
    } else {
      assert lit + rest == rest;
    }
  }

  lemma {:induction false} WordPrefixOf(k: string, rest: string)
    requires IsWord(k) && (|rest| == 0 || !WordChar(rest[0]))
    ensures WordPrefix(k + rest) == k
    decreases |k|
  {
    if |k| > 0 {
      assert (k + rest)[1..] == k[1..] + rest;
      WordPrefixOf(k[1..], rest);
      assert k == [k[0]] + k[1..];
    } else {
      assert k + rest == rest;
    }
  }

  /**
   * A placeholder is replaced by its variable; a name the variables lack
   * gives "" unless every object has it from `Object.prototype`.
   */
  lemma HolePasses(k: string, rest: string, vars: Record<string>)
    requires |k| > 0 && IsWord(k)
    ensures Lookup(vars, k).Some? ==> Interpolate(Open + k + Close + rest, vars) == Lookup(vars, k).value + Interpolate(rest, vars)
    ensures Lookup(vars, k).None? && Inherited(k).None? ==> Interpolate(Open + k + Close + rest, vars) == Interpolate(rest, vars)
    ensures Lookup(vars, k).None? && Inherited(k).Some? ==>
      Interpolate(Open + k + Close + rest, vars) == Inherited(k).value + Interpolate(rest, vars)
  {
    var t := Open + k + Close + rest;
    assert t[..2] == Open;
    assert t[2..] == k + (Close + rest);
    WordPrefixOf(k, Close + rest);
    assert t[2 + |k|..] == Close + rest;
    assert (Close + rest)[2..] == rest;
    assert Placeholder(t) == Some((k, rest));
    assert "" + Interpolate(rest, vars) == Interpolate(rest, vars);
  }

  /** Interpolating a template's text renders it: a template means what its pieces say. */
  lemma {:induction false} InterpolatePrinted(ps: seq<Piece>, vars: Record<string>)
    requires forall i :: 0 <= i < |ps| ==> WellFormedPiece(ps[i])
    ensures Interpolate(Print(ps), vars) == Render(ps, vars)
    decreases |ps|
  {
    if |ps| > 0 {
      InterpolatePrinted(ps[1..], vars);
      match ps[0]
      case Lit(s) =>
        LiteralPassesThrough(s, Print(ps[1..]), vars);
      case Var(k) =>
        HolePasses(k, Print(ps[1..]), vars);
    }
  }

  /** Text without a `{` is left as it is. */
  lemma NoBraceUnchanged(t: string, vars: Record<string>)
    requires '{' !in t
    ensures Interpolate(t, vars) == t
  {
    LiteralPassesThrough(t, "", vars);
    assert t + "" == t;
  }

  const DefaultTitle: string := "Heartbeat report ({{date}})"

  const DefaultContentLines: seq<string> := [
    "Automated heartbeat tick.",
    "",
    "- Upvoted: {{upvoted}}",
    "- Commented: {{commented}}",
    "- Feed items considered: {{feedItems}}",
    "",
    "_Note: This is generated locally by an agent CLI._"
  ]

  const DefaultContent: string := Join(DefaultContentLines, '\n')

  lemma TitlePieces()
    ensures Print([Lit("Heartbeat report ("), Var("date"), Lit(")")]) == DefaultTitle
    ensures forall i :: 0 <= i < 3 ==> WellFormedPiece([Lit("Heartbeat report ("), Var("date"), Lit(")")][i])
  {
    var ps := [Lit("Heartbeat report ("), Var("date"), Lit(")")];
    assert ps[2..] == [Lit(")")] && ps[1..] == [Var("date"), Lit(")")];
    assert Print(ps[2..]) == ")";
    assert Print(ps[1..]) == "{{date}})";
  }

  lemma TitleRenders(vars: Record<string>)
    ensures Render([Lit("Heartbeat report ("), Var("date"), Lit(")")], vars) == "Heartbeat report (" + Property(vars, "date") + ")"
  {
    var ps := [Lit("Heartbeat report ("), Var("date"), Lit(")")];
    assert ps[1..][1..] == ps[2..];
    assert Render(ps[2..], vars) == ")";
    assert Render(ps[1..], vars) == Property(vars, "date") + ")";
  }

  /** The default title carries the date. */
  lemma DefaultTitleShowsDate(vars: Record<string>)
    ensures Interpolate(DefaultTitle, vars) == "Heartbeat report (" + Lookup(vars, "date").GetOr("") + ")"
  {
    var ps := [Lit("Heartbeat report ("), Var("date"), Lit(")")];
    TitlePieces();
    InterpolatePrinted(ps, vars);
    TitleRenders(vars);
    ShortNameNotInherited("date");
  }

  // ------------------------------------------------------------ time since the last post

  datatype Elapsed = Never | Hours(h: real)

  const MsPerHour: real := 3600000.0

  /** `hoursSince`, with `Date.parse` (`None` for NaN) and `Date.now()` as parameters. */
  function HoursSince(iso: Option<string>, parseDate: string -> Option<real>, nowMs: real): (r: Elapsed)
    ensures r.Never? <==> iso.None? || iso.value == "" || parseDate(iso.value).None?
    ensures r.Hours? ==> r.h * MsPerHour == nowMs - parseDate(iso.value).value
  {
    if iso.None? || iso.value == "" then Never
    else match parseDate(iso.value)
      case None => Never
      case Some(t) => Hours((nowMs - t) / MsPerHour)
  }

  /** `hoursSince(...) >= hours`: Infinity is at least any number. */
  predicate AtLeast(e: Elapsed, hours: real) {
    e.Never? || e.h >= hours
  }

  // ------------------------------------------------------------ the passes over the feed

  /** `shouldSkipItem`: outside the allowed submolts (an empty list allows none) or by an avoided author. */
  predicate ShouldSkip(p: Effective, item: FeedItem) {
    || (p.submoltsAllow.Some? && item.submolt !in p.submoltsAllow.value)
    || (p.avoidAuthors.Some? && item.author in p.avoidAuthors.value)
  }

  /** `if (map[id])`: a post counts as done when its entry is a non-empty string. */
  predicate Marked(m: IdMap, id: string) {
    Lookup(m, id).Some? && Lookup(m, id).value != ""
  }

  function Ids(items: seq<FeedItem>): (r: seq<string>)
    ensures |r| == |items| && forall i :: 0 <= i < |items| ==> r[i] == items[i].id
  {
    if |items| == 0 then [] else [items[0].id] + Ids(items[1..])
  }

  /** No two of the posts have the same id. */
  predicate DistinctIds(items: seq<FeedItem>) {
    forall i, j :: 0 <= i < j < |items| ==> items[i].id != items[j].id
  }

  /** The marks after a pass and the posts it acted on, in feed order. */
  datatype Pass = Pass(marks: IdMap, acted: seq<FeedItem>)

  /** A post the loop passes over without acting. */
  predicate Passed(p: Effective, marks: IdMap, item: FeedItem) {
    ShouldSkip(p, item) || Marked(marks, item.id)
  }

  /**
   * One of the two loops, with `count` posts already done: stop once the
   * count reaches `cap`, pass over skipped and marked posts, act on the
   * rest and mark them with `now`.
   */
  function RunPass(items: seq<FeedItem>, p: Effective, cap: real, marks: IdMap, count: nat, now: string): (r: Pass)
    ensures UniqueKeys(marks) ==> UniqueKeys(r.marks)
    decreases |items|
  {
    if |items| == 0 || count as real >= cap then Pass(marks, [])
    else if Passed(p, marks, items[0]) then RunPass(items[1..], p, cap, marks, count, now)
    else
      var item := items[0];
      AssignUnique(marks, item.id, now);
      var rest := RunPass(items[1..], p, cap, Assign(marks, item.id, now), count + 1, now);
      Pass(rest.marks, [item] + rest.acted)
  }

  /** A pass stops acting once the count reaches the cap. */
  lemma {:induction false} PassBound(items: seq<FeedItem>, p: Effective, cap: real, marks: IdMap, count: nat, now: string)
    ensures var r := RunPass(items, p, cap, marks, count, now);
      |r.acted| == 0 || (count + |r.acted| - 1) as real < cap
    decreases |items|
  {
    if |items| > 0 && (count as real) < cap {
      if Passed(p, marks, items[0]) {
        PassBound(items[1..], p, cap, marks, count, now);
      } else {
        PassBound(items[1..], p, cap, Assign(marks, items[0].id, now), count + 1, now);
      }
    }
  }

  /**
   * Every post a pass acts on is in the feed, passes the filters and was
   * not marked in `m0`, the marks before the loop began.
   */
  lemma {:induction false} PassActsOnFresh(items: seq<FeedItem>, p: Effective, cap: real, m0: IdMap, marks: IdMap, count: nat, now: string)
    requires forall k :: Marked(m0, k) ==> Lookup(marks, k) == Lookup(m0, k)
    ensures forall x :: x in RunPass(items, p, cap, marks, count, now).acted ==> x in items && !ShouldSkip(p, x) && !Marked(m0, x.id)
    decreases |items|
  {
    if |items| > 0 && (count as real) < cap {
      var item := items[0];
      if Passed(p, marks, item) {
        PassActsOnFresh(items[1..], p, cap, m0, marks, count, now);
        assert forall x :: x in items[1..] ==> x in items;
      } else {
        var next := Assign(marks, item.id, now);
        forall k | Marked(m0, k) ensures Lookup(next, k) == Lookup(m0, k) {
          AssignLookup(marks, item.id, now, k);
        }
        PassActsOnFresh(items[1..], p, cap, m0, next, count + 1, now);
        assert forall x :: x in items[1..] ==> x in items;
      }
    }
  }

  /** After a pass, the posts it acted on read `now`; every other entry is as it was. */
  lemma {:induction false} PassMarks(items: seq<FeedItem>, p: Effective, cap: real, marks: IdMap, count: nat, now: string, k: string)
    ensures var r := RunPass(items, p, cap, marks, count, now);
      Lookup(r.marks, k) == if k in Ids(r.acted) then Some(now) else Lookup(marks, k)
    decreases |items|
  {
    if |items| > 0 && (count as real) < cap {
      var item := items[0];
      if Passed(p, marks, item) {
        PassMarks(items[1..], p, cap, marks, count, now, k);
      } else {
        var next := Assign(marks, item.id, now);
        AssignLookup(marks, item.id, now, k);
        PassMarks(items[1..], p, cap, next, count + 1, now, k);
        var rest := RunPass(items[1..], p, cap, next, count + 1, now);
        assert Ids([item] + rest.acted) == [item.id] + Ids(rest.acted);
      }
    }
  }

  /**
   * A pass that stops short of its cap has acted on every post of the feed
   * that passes the filters and was not marked.
   */
  lemma {:induction false} PassComplete(items: seq<FeedItem>, p: Effective, cap: real, marks: IdMap, count: nat, now: string)
    ensures var r := RunPass(items, p, cap, marks, count, now);
      ((count + |r.acted|) as real) < cap ==>
        forall x :: x in items && !Passed(p, marks, x) ==> x.id in Ids(r.acted)
    decreases |items|
  {
    var r := RunPass(items, p, cap, marks, count, now);
    if |items| > 0 && (count as real) < cap {
      var item := items[0];
      if Passed(p, marks, item) {
        PassComplete(items[1..], p, cap, marks, count, now);
      } else {
        var next := Assign(marks, item.id, now);
        PassComplete(items[1..], p, cap, next, count + 1, now);
        var rest := RunPass(items[1..], p, cap, next, count + 1, now);
        assert Ids(r.acted) == [item.id] + Ids(rest.acted);
        forall x | x in items && !Passed(p, marks, x) && ((count + |r.acted|) as real) < cap
          ensures x.id in Ids(r.acted)
        {
          if x.id != item.id {
            AssignLookup(marks, item.id, now, x.id);
            assert x in items[1..];
          }
        }
      }
    }
  }

  /** With a non-empty time stamp, a pass acts on each post at most once. */
  lemma {:induction false} PassDistinct(items: seq<FeedItem>, p: Effective, cap: real, marks: IdMap, count: nat, now: string)
    requires now != ""
    ensures DistinctIds(RunPass(items, p, cap, marks, count, now).acted)
    decreases |items|
  {
    if |items| > 0 && (count as real) < cap {
      var item := items[0];
      if Passed(p, marks, item) {
        PassDistinct(items[1..], p, cap, marks, count, now);
      } else {
        var next := Assign(marks, item.id, now);
        PassDistinct(items[1..], p, cap, next, count + 1, now);
        AssignLookup(marks, item.id, now, item.id);
        assert Marked(next, item.id);
        PassActsOnFresh(items[1..], p, cap, next, next, count + 1, now);
        var rest := RunPass(items[1..], p, cap, next, count + 1, now);
        assert forall x :: x in rest.acted ==> x.id != item.id;
        ConsDistinct(item, rest.acted);
        assert RunPass(items, p, cap, marks, count, now).acted == [item] + rest.acted;
      }
    }
  }

  lemma ConsDistinct(item: FeedItem, rest: seq<FeedItem>)
    requires DistinctIds(rest) && forall x :: x in rest ==> x.id != item.id
    ensures DistinctIds([item] + rest)
  {
    var acted := [item] + rest;
    forall i, j | 0 <= i < j < |acted| ensures acted[i].id != acted[j].id {
      assert acted[j] == rest[j - 1];
      if i > 0 {
        assert acted[i] == rest[i - 1];
      } else {
        assert acted[j] in rest;
      }
    }
  }

  // ------------------------------------------------------------ the tick

  function Upvotes(items: seq<FeedItem>): (r: seq<Action>)
    ensures |r| == |items| && forall i :: 0 <= i < |items| ==> r[i] == Upvote(items[i].id)
  {
    if |items| == 0 then [] else [Upvote(items[0].id)] + Upvotes(items[1..])
  }

  /** The comment each post gets: its template, filled with the post's title, submolt and author. */
  function Comments(items: seq<FeedItem>, templates: seq<string>): (r: seq<Action>)
    requires |templates| > 0
    ensures |r| == |items|
    ensures forall i :: 0 <= i < |items| ==>
      r[i] == Comment(items[i].id, Interpolate(PickTemplate(templates, items[i].id).value, PostVars(items[i])))
  {
    if |items| == 0 then []
    else
      var first := Comment(items[0].id, Interpolate(PickTemplate(templates, items[0].id).value, PostVars(items[0])));
      [first] + Comments(items[1..], templates)
  }

  function PostVars(item: FeedItem): Record<string> {
    [("title", item.title), ("submolt", item.submolt), ("author", item.author)]
  }

  /** The variables of the heartbeat report. */
  function ReportVars(w: World, upvoted: nat, commented: nat): Record<string> {
    [("date", Take(w.now, 10)),
     ("upvoted", JsNumber.NatToString(upvoted)),
     ("commented", JsNumber.NatToString(commented)),
     ("feedItems", JsNumber.NatToString(|w.feed|)),
     ("statePath", w.statePath)]
  }

  /** Whether the tick posts a report: a non-empty submolt and a last post long enough ago. */
  predicate ReportDue(p: Effective, st: State, w: World, parseDate: string -> Option<real>) {
    && p.autoPostSubmolt.Some? && |p.autoPostSubmolt.value| > 0
    && AtLeast(HoursSince(st.lastPostAt, parseDate, w.nowMs), p.autoPostEveryHours)
  }

  function Report(p: Effective, w: World, upvoted: nat, commented: nat): Action
    requires p.autoPostSubmolt.Some?
  {
    var vars := ReportVars(w, upvoted, commented);
    CreatePost(p.autoPostSubmolt.value,
      Interpolate(p.autoPostTitleTemplate.GetOr(DefaultTitle), vars),
      Interpolate(p.autoPostContentTemplate.GetOr(DefaultContent), vars))
  }

  /** `runEngageOnce` with the effective policy `p` and the loaded state `st`, when every API call succeeds. */
  function Unfailing(p: Effective, st: State, w: World, parseDate: string -> Option<real>): (r: Run)
    ensures p.requireClaimed && w.status != Claimed ==>
      r == Done(st.(lastRunAt := Some(w.now)), Summary(w.status, 0, 0, 0, false, w.dm), [])
    ensures Valid(st) && r.Done? ==> Valid(r.state)
    ensures r.Done? ==> r.state.lastRunAt == Some(w.now) && r.summary.status == w.status && r.summary.dm == w.dm
  {
    var summary := Summary(w.status, 0, 0, 0, false, w.dm);
    if p.requireClaimed && w.status != Claimed then
      Done(st.(lastRunAt := Some(w.now)), summary, [])
    else
      var up := RunPass(w.feed, p, p.maxUpvotesPerRun, st.upvoted, 0, w.now);
      var co := RunPass(w.feed, p, p.maxCommentsPerRun, st.commented, 0, w.now);
      var before := [ListFeed(p.feedSort, p.feedLimit)] + Upvotes(up.acted);
      if |co.acted| > 0 && |p.commentTemplates| == 0 then Crashed(before)
      else
        var comments := if |co.acted| == 0 then [] else Comments(co.acted, p.commentTemplates);
        var due := ReportDue(p, st, w, parseDate);
        var report := if due then [Report(p, w, |up.acted|, |co.acted|)] else [];
        Done(State(Some(w.now), if due then Some(w.now) else st.lastPostAt, up.marks, co.marks),
          Summary(w.status, |w.feed|, |up.acted|, |co.acted|, due, w.dm),
          before + comments + report)
  }

  /**
   * `runEngageOnce`: a failing API call throws out of the tick after the
   * calls before it and itself were made, and no next state comes back
   * (the CLI saves nothing). Otherwise the tick runs as if nothing failed.
   */
  function RunEngageOnce(p: Effective, st: State, w: World, parseDate: string -> Option<real>): (r: Run)
    ensures var u := Unfailing(p, st, w, parseDate);
      && |r.actions| <= |u.actions| && r.actions == u.actions[..|r.actions|]
      && (r.Crashed? <==> u.Crashed? || (w.failsAt.Some? && w.failsAt.value <= |u.actions|))
      && (w.failsAt.Some? && w.failsAt.value <= |u.actions| ==> |r.actions| == w.failsAt.value)
      && (r.Done? ==> r == u)
  {
    var u := Unfailing(p, st, w, parseDate);
    if w.failsAt.Some? && w.failsAt.value <= |u.actions| then Crashed(u.actions[..w.failsAt.value])
    else u
  }

  // ------------------------------------------------------------ what a tick does

  /** The upvote pass of a tick. */
  function UpvotePass(p: Effective, st: State, w: World): Pass {
    RunPass(w.feed, p, p.maxUpvotesPerRun, st.upvoted, 0, w.now)
  }

  function CommentPass(p: Effective, st: State, w: World): Pass {
    RunPass(w.feed, p, p.maxCommentsPerRun, st.commented, 0, w.now)
  }

  predicate Proceeds(p: Effective, w: World) {
    !(p.requireClaimed && w.status != Claimed)
  }

  /**
   * A tick that goes ahead would list the feed with the policy's sort and
   * limit, then upvote the posts of the upvote pass in feed order. It
   * makes a prefix of those calls and throws exactly when one of its calls
   * fails or a post is due a comment and there are no templates; with no
   * failing call, it makes all of them.
   */
  lemma TickCalls(p: Effective, st: State, w: World, parseDate: string -> Option<real>)
    requires Proceeds(p, w)
    ensures var u := Unfailing(p, st, w, parseDate);
      var r := RunEngageOnce(p, st, w, parseDate);
      var before := [ListFeed(p.feedSort, p.feedLimit)] + Upvotes(UpvotePass(p, st, w).acted);
      && u.actions[..|before|] == before
      && r.actions == u.actions[..|r.actions|]
      && (w.failsAt.None? ==> r == u)
      && (r.Crashed? <==>
            (w.failsAt.Some? && w.failsAt.value <= |u.actions|)
            || (|CommentPass(p, st, w).acted| > 0 && |p.commentTemplates| == 0))
  {
    var u := Unfailing(p, st, w, parseDate);
    var before := [ListFeed(p.feedSort, p.feedLimit)] + Upvotes(UpvotePass(p, st, w).acted);
    assert u.actions[..|before|] == before;
  }

  /**
   * The posts a tick upvotes are feed posts that pass the filters and were
   * not upvoted before, each once, at most the cap of them; they are
   * recorded with the time, and every earlier record is kept.
   */
  lemma TickUpvotes(p: Effective, st: State, w: World, parseDate: string -> Option<real>)
    requires Proceeds(p, w) && w.now != ""
    ensures var up := UpvotePass(p, st, w);
      && (forall x :: x in up.acted ==> x in w.feed && !ShouldSkip(p, x) && !Marked(st.upvoted, x.id))
      && DistinctIds(up.acted)
      && (|up.acted| == 0 || (|up.acted| - 1) as real < p.maxUpvotesPerRun)
      && ((|up.acted| as real) < p.maxUpvotesPerRun ==>
            forall x :: x in w.feed && !ShouldSkip(p, x) && !Marked(st.upvoted, x.id) ==> x.id in Ids(up.acted))
    ensures RunEngageOnce(p, st, w, parseDate).Done? ==>
      var r := RunEngageOnce(p, st, w, parseDate);
      && r.summary.upvoted == |UpvotePass(p, st, w).acted|
      && forall k :: Lookup(r.state.upvoted, k) == if k in Ids(UpvotePass(p, st, w).acted) then Some(w.now) else Lookup(st.upvoted, k)
  {
    var up := UpvotePass(p, st, w);
    PassBound(w.feed, p, p.maxUpvotesPerRun, st.upvoted, 0, w.now);
    PassActsOnFresh(w.feed, p, p.maxUpvotesPerRun, st.upvoted, st.upvoted, 0, w.now);
    PassDistinct(w.feed, p, p.maxUpvotesPerRun, st.upvoted, 0, w.now);
    PassComplete(w.feed, p, p.maxUpvotesPerRun, st.upvoted, 0, w.now);
    forall k {
      PassMarks(w.feed, p, p.maxUpvotesPerRun, st.upvoted, 0, w.now, k);
    }
  }

  /** The same for comments: fresh posts, each once, within the cap, each with its template filled in. */
  lemma TickComments(p: Effective, st: State, w: World, parseDate: string -> Option<real>)
    requires Proceeds(p, w) && w.now != ""
    requires RunEngageOnce(p, st, w, parseDate).Done?
    ensures var co := CommentPass(p, st, w);
      var r := RunEngageOnce(p, st, w, parseDate);
      && (forall x :: x in co.acted ==> x in w.feed && !ShouldSkip(p, x) && !Marked(st.commented, x.id))
      && DistinctIds(co.acted)
      && (|co.acted| == 0 || (|co.acted| - 1) as real < p.maxCommentsPerRun)
      && r.summary.commented == |co.acted|
      && (forall k :: Lookup(r.state.commented, k) == if k in Ids(co.acted) then Some(w.now) else Lookup(st.commented, k))
  {
    PassBound(w.feed, p, p.maxCommentsPerRun, st.commented, 0, w.now);
    PassActsOnFresh(w.feed, p, p.maxCommentsPerRun, st.commented, st.commented, 0, w.now);
    PassDistinct(w.feed, p, p.maxCommentsPerRun, st.commented, 0, w.now);
    forall k {
      PassMarks(w.feed, p, p.maxCommentsPerRun, st.commented, 0, w.now, k);
    }
  }

  /** Upvotes and comments are never posts. */
  lemma NoPostAmong(up: seq<FeedItem>, co: seq<FeedItem>, templates: seq<string>, a: Action)
    requires |templates| > 0
    requires a in Upvotes(up) || a in Comments(co, templates)
    ensures !a.CreatePost?
  {
  }

  /** A finished tick posts a report exactly when one is due, and then records the time. */
  lemma TickReport(p: Effective, st: State, w: World, parseDate: string -> Option<real>)
    requires Proceeds(p, w)
    requires RunEngageOnce(p, st, w, parseDate).Done?
    ensures var r := RunEngageOnce(p, st, w, parseDate);
      && r.summary.createdPost == ReportDue(p, st, w, parseDate)
      && (ReportDue(p, st, w, parseDate) ==> r.actions[|r.actions| - 1].CreatePost? && r.state.lastPostAt == Some(w.now))
      && (!ReportDue(p, st, w, parseDate) ==> r.state.lastPostAt == st.lastPostAt && forall a :: a in r.actions ==> !a.CreatePost?)
  {
    var r := RunEngageOnce(p, st, w, parseDate);
    if !ReportDue(p, st, w, parseDate) {
      var up := UpvotePass(p, st, w);
      var co := CommentPass(p, st, w);
      var comments := if |co.acted| == 0 then [] else Comments(co.acted, p.commentTemplates);
      assert r.actions == [ListFeed(p.feedSort, p.feedLimit)] + Upvotes(up.acted) + comments;
      forall a | a in r.actions ensures !a.CreatePost? {
        if a != ListFeed(p.feedSort, p.feedLimit) {
          NoPostAmong(up.acted, co.acted, if |co.acted| == 0 then [""] else p.commentTemplates, a);
        }
      }
    }
  }

  /** A report with the default title carries the tick's date, the first ten characters of the time. */
  lemma DefaultReportTitle(p: Effective, w: World, upvoted: nat, commented: nat)
    requires p.autoPostSubmolt.Some? && p.autoPostTitleTemplate.None?
    ensures Report(p, w, upvoted, commented).title == "Heartbeat report (" + Take(w.now, 10) + ")"
  {
    var vars := ReportVars(w, upvoted, commented);
    DefaultTitleShowsDate(vars);
    KeyIndexIs(vars, "date", 0);
    assert Lookup(vars, "date") == Some(Take(w.now, 10));
  }

  /** The default policy sets neither list, so it skips no post. */
  lemma DefaultsSkipNothing(item: FeedItem)
    ensures !ShouldSkip(Defaults, item)
  {
  }

  /**
   * When the report is due: never without a non-empty report submolt;
   * with one, always when no earlier post time parses, and otherwise
   * once `autoPostEveryHours` hours' worth of milliseconds have passed.
   */
  lemma ReportDueWhen(p: Effective, st: State, w: World, parseDate: string -> Option<real>)
    ensures ReportDue(p, st, w, parseDate) ==> p.autoPostSubmolt.Some? && |p.autoPostSubmolt.value| > 0
    ensures p.autoPostSubmolt.Some? && |p.autoPostSubmolt.value| > 0 ==>
      && (st.lastPostAt.None? || st.lastPostAt.value == "" || parseDate(st.lastPostAt.value).None? ==> ReportDue(p, st, w, parseDate))
      && (st.lastPostAt.Some? && st.lastPostAt.value != "" && parseDate(st.lastPostAt.value).Some? ==>
            (ReportDue(p, st, w, parseDate) <==> w.nowMs - parseDate(st.lastPostAt.value).value >= p.autoPostEveryHours * MsPerHour))
  {
    var e := HoursSince(st.lastPostAt, parseDate, w.nowMs);
    if e.Hours? {
      assert e.h * MsPerHour == w.nowMs - parseDate(st.lastPostAt.value).value;
      assert e.h >= p.autoPostEveryHours <==> e.h * MsPerHour >= p.autoPostEveryHours * MsPerHour;
    }
  }

  /** An empty allow-list skips every post. */
  lemma EmptyAllowListSkipsAll(p: Effective, item: FeedItem)
    requires p.submoltsAllow == Some([])
    ensures ShouldSkip(p, item)
  {
  }
}
