/**
 * The agent CLI's state file (packages/agent-cli/src/state.ts): when it
 * last ran and posted, and which posts it has upvoted and commented on,
 * each post id mapped to the time it was acted on. Loading never fails:
 * anything unreadable is the default state. Saving keeps the 500 newest
 * entries of each map.
 */
module AgentState {
  import opened Wrappers
  import opened Json
  import opened Records
  import Ordering
  import Sorting
  import JsNumber

  /** Post id to the ISO time the agent acted on it. */
  type IdMap = Record<string>

  datatype State = State(lastRunAt: Option<string>, lastPostAt: Option<string>, upvoted: IdMap, commented: IdMap)

  /** `DEFAULT_STATE` */
  const Default: State := State(None, None, [], [])

  /** The most entries each map keeps when saved. */
  const MaxEntries: nat := 500

  const VersionKey: string := "version"
  const LastRunKey: string := "lastRunAt"
  const LastPostKey: string := "lastPostAt"
  const UpvotedKey: string := "upvotedPostIds"
  const CommentedKey: string := "commentedPostIds"

  /** Both maps are records: one entry per post id. */
  predicate Valid(s: State) {
    UniqueKeys(s.upvoted) && UniqueKeys(s.commented)
  }

  // ---------------------------------------------------------------- loading

  /** `obj.version === 1` */
  predicate IsVersionOne(v: Option<Json>) {
    v.Some? && v.value.JNum? && JsNumber.JsonValue(v.value.mantissa, v.value.exponent) == 1.0
  }

  /** `typeof v === "string" ? v : undefined` */
  function StringField(members: seq<(string, Json)>, key: string): (r: Option<string>)
    ensures r.Some? <==> Get(members, key).Some? && Get(members, key).value.JStr?
    ensures r.Some? ==> Get(members, key) == Some(JStr(r.value))
  {
    match Get(members, key)
    case Some(JStr(s)) => Some(s)
    case _ => None
  }

  /** The entries of a record whose values are strings. */
  function Strings(m: Record<Json>): (r: IdMap)
    ensures forall x :: x in r ==> (x.0, JStr(x.1)) in m
    ensures forall i :: 0 <= i < |m| && m[i].1.JStr? ==> (m[i].0, m[i].1.s) in r
    ensures UniqueKeys(m) ==> UniqueKeys(r)
  {
    if |m| == 0 then []
    else
      var rest := Strings(m[1..]);
      assert forall i :: 0 < i < |m| ==> m[i] == m[1..][i - 1];
      if m[0].1.JStr? then [(m[0].0, m[0].1.s)] + rest else rest
  }

  /** An array read as a record: its elements under the keys "0", "1", ... */
  function Indexed(items: seq<Json>): (r: Record<Json>)
    ensures |r| == |items|
    ensures forall i :: 0 <= i < |items| ==> r[i] == (JsNumber.NatToString(i), items[i])
  {
    if |items| == 0 then []
    else
      var n := |items| - 1;
      Indexed(items[..n]) + [(JsNumber.NatToString(n), items[n])]
  }

  /** Array indexes are distinct keys. */
  lemma IndexedUnique(items: seq<Json>)
    ensures UniqueKeys(Indexed(items))
  {
    var r := Indexed(items);
    forall i, j | 0 <= i < j < |r| ensures r[i].0 != r[j].0 {
      JsNumber.DigitsOfNat(i);
      JsNumber.DigitsOfNat(j);
    }
  }

  /** `typeof v === "object" && v ? v : {}`, keeping the string-valued entries. */
  function MapField(members: seq<(string, Json)>, key: string): (r: IdMap)
    ensures UniqueKeys(r)
    ensures Get(members, key).None? ==> r == []
  {
    match Get(members, key)
    case Some(JObj(inner)) => Strings(FromPairs(inner))
    case Some(JArr(items)) =>
      IndexedUnique(items);
      Strings(Indexed(items))
    case _ => []
  }

  /** The state a parsed file holds; `None` is text `JSON.parse` rejects. */
  function FromJson(j: Option<Json>): (r: State)
    ensures Valid(r)
    ensures !(j.Some? && j.value.JObj? && IsVersionOne(Get(j.value.members, VersionKey))) ==> r == Default
  {
    match j
    case Some(JObj(ms)) =>
      if !IsVersionOne(Get(ms, VersionKey)) then Default
      else State(StringField(ms, LastRunKey), StringField(ms, LastPostKey), MapField(ms, UpvotedKey), MapField(ms, CommentedKey))
    case _ => Default
  }

  /** `loadState`, given the file's text or `None` when it cannot be read. */
  function LoadState(raw: Option<string>): (r: State)
    ensures Valid(r)
    ensures raw.None? ==> r == Default
    ensures raw.Some? ==> r == FromJson(Parse(raw.value))
  {
    match raw
    case None => Default
    case Some(text) => FromJson(Parse(text))
  }

  // ---------------------------------------------------------------- pruning

  /** Newer first: `a` may precede `b` unless its time sorts before `b`'s. */
  predicate NewerFirst(a: (string, string), b: (string, string)) {
    !Ordering.StrLt(a.1, b.1)
  }

  lemma NewerFirstIsPreorder()
    ensures Sorting.TotalPreorder(NewerFirst)
  {
    forall a: (string, string), b: (string, string) ensures NewerFirst(a, b) || NewerFirst(b, a) {
      if Ordering.StrLt(a.1, b.1) {
        Ordering.StrLtAsymmetric(a.1, b.1);
      }
    }
    forall a: (string, string), b: (string, string), c: (string, string) | NewerFirst(a, b) && NewerFirst(b, c)
      ensures NewerFirst(a, c)
    {
      Ordering.StrLtTotal(a.1, b.1);
      Ordering.StrLtTotal(b.1, c.1);
      if Ordering.StrLt(a.1, c.1) {
        if b.1 == a.1 {
        } else if b.1 == c.1 {
        } else {
          Ordering.StrLtTransitive(b.1, a.1, c.1);
        }
      }
    }
  }

  /** `pruneMap`: at most `max` entries, the newest, newest first. */
  function PruneMap(m: IdMap, max: nat): (r: IdMap)
    ensures |m| <= max ==> r == m
    ensures |m| > max ==> |r| == max && Sorting.SortedBy(r, NewerFirst)
    ensures multiset(r) <= multiset(m)
  {
    if |m| <= max then m
    else
      NewerFirstIsPreorder();
      var sorted := Sorting.SortBy(m, NewerFirst);
      Sorting.SortByLength(m, NewerFirst);
      PrefixOfSorted(sorted, m, max);
      sorted[..max]
  }

  lemma PrefixOfSorted(sorted: IdMap, m: IdMap, max: nat)
    requires max <= |sorted|
    requires Sorting.SortedBy(sorted, NewerFirst) && multiset(sorted) == multiset(m)
    ensures Sorting.SortedBy(sorted[..max], NewerFirst)
    ensures multiset(sorted[..max]) <= multiset(m)
  {
    assert sorted == sorted[..max] + sorted[max..];
    assert multiset(sorted) == multiset(sorted[..max]) + multiset(sorted[max..]);
  }

  /** What pruning keeps is no older than anything it drops, and no key appears twice. */
  lemma PruneKeepsNewest(m: IdMap, max: nat)
    requires UniqueKeys(m)
    ensures UniqueKeys(PruneMap(m, max))
    ensures forall x, y :: x in PruneMap(m, max) && y in m && y !in PruneMap(m, max) ==> !Ordering.StrLt(x.1, y.1)
  {
    var r := PruneMap(m, max);
    UniqueKeysOfSubMultiset(r, m);
    if |m| > max {
      NewerFirstIsPreorder();
      var sorted := Sorting.SortBy(m, NewerFirst);
      Sorting.SortByLength(m, NewerFirst);
      assert r == sorted[..max];
      forall x, y | x in r && y in m && y !in r ensures !Ordering.StrLt(x.1, y.1) {
        var i :| 0 <= i < max && sorted[i] == x;
        assert y in multiset(sorted);
        var j :| 0 <= j < |sorted| && sorted[j] == y;
        assert NewerFirst(sorted[i], sorted[j]);
      }
    }
  }

  // ---------------------------------------------------------------- saving

  /** The state `saveState` writes: both maps pruned to 500 entries. */
  function Normalize(s: State): (r: State)
    ensures |r.upvoted| <= MaxEntries && |r.commented| <= MaxEntries
    ensures r.lastRunAt == s.lastRunAt && r.lastPostAt == s.lastPostAt
  {
    State(s.lastRunAt, s.lastPostAt, PruneMap(s.upvoted, MaxEntries), PruneMap(s.commented, MaxEntries))
  }

  /** An optional string member; `JSON.stringify` leaves out undefined ones. */
  function OptionalMember(key: string, v: Option<string>): seq<(string, Json)> {
    if v.Some? then [(key, JStr(v.value))] else []
  }

  /** The members of the object that holds a normalized state. */
  function Members(n: State): seq<(string, Json)> {
    [(VersionKey, JNum(1, 0))]
      + OptionalMember(LastRunKey, n.lastRunAt)
      + OptionalMember(LastPostKey, n.lastPostAt)
      + [(UpvotedKey, JObj(AsJson(n.upvoted))), (CommentedKey, JObj(AsJson(n.commented)))]
  }

  /** The object `saveState` stringifies. */
  function ToJson(s: State): Json {
    JObj(Members(Normalize(s)))
  }

  lemma {:induction false} StringsOfStrings(m: IdMap)
    ensures Strings(AsJson(m)) == m
    decreases |m|
  {
    if |m| > 0 {
      assert AsJson(m)[1..] == AsJson(m[1..]);
      StringsOfStrings(m[1..]);
    }
  }

  lemma MapFieldRoundTrip(m: IdMap, members: seq<(string, Json)>, key: string)
    requires UniqueKeys(m)
    requires Get(members, key) == Some(JObj(AsJson(m)))
    ensures MapField(members, key) == m
  {
    assert UniqueKeys(AsJson(m)) by {
      assert forall i :: 0 <= i < |m| ==> AsJson(m)[i].0 == m[i].0;
    }
    FromUniquePairs(AsJson(m));
    StringsOfStrings(m);
  }

  lemma MembersShape(n: State)
    ensures var ms := Members(n);
      && |ms| >= 3
      && ms[0] == (VersionKey, JNum(1, 0))
      && ms[|ms| - 2] == (UpvotedKey, JObj(AsJson(n.upvoted)))
      && ms[|ms| - 1] == (CommentedKey, JObj(AsJson(n.commented)))
      && (forall i :: 1 <= i < |ms| - 2 ==> ms[i].0 == LastRunKey || ms[i].0 == LastPostKey)
      && (n.lastRunAt.Some? ==> ms[1] == (LastRunKey, JStr(n.lastRunAt.value)))
      && (n.lastPostAt.Some? ==> ms[|ms| - 3] == (LastPostKey, JStr(n.lastPostAt.value)))
      && (n.lastRunAt.None? ==> forall i :: 0 <= i < |ms| ==> ms[i].0 != LastRunKey)
      && (n.lastPostAt.None? ==> forall i :: 0 <= i < |ms| ==> ms[i].0 != LastPostKey)
  {
  }

  /** Each member of the saved object reads back as written. */
  lemma MembersRead(n: State)
    ensures Get(Members(n), VersionKey) == Some(JNum(1, 0))
    ensures Get(Members(n), UpvotedKey) == Some(JObj(AsJson(n.upvoted)))
    ensures Get(Members(n), CommentedKey) == Some(JObj(AsJson(n.commented)))
    ensures StringField(Members(n), LastRunKey) == n.lastRunAt
    ensures StringField(Members(n), LastPostKey) == n.lastPostAt
  {
    var ms := Members(n);
    var k := |ms|;
    MembersShape(n);
    GetIsLast(ms, CommentedKey, k - 1);
    GetIsLast(ms, UpvotedKey, k - 2);
    GetIsLast(ms, VersionKey, 0);
    if n.lastRunAt.Some? {
      GetIsLast(ms, LastRunKey, 1);
    }
    if n.lastPostAt.Some? {
      GetIsLast(ms, LastPostKey, k - 3);
    }
  }

  /** A valid state written as members loads back unchanged. */
  lemma LoadMembers(n: State)
    requires Valid(n)
    ensures FromJson(Some(JObj(Members(n)))) == n
  {
    var ms := Members(n);
    MembersRead(n);
    MapFieldRoundTrip(n.upvoted, ms, UpvotedKey);
    MapFieldRoundTrip(n.commented, ms, CommentedKey);
  }

  /** Loading what `saveState` writes gives back the saved state, pruned. */
  lemma SaveThenLoad(s: State)
    requires Valid(s)
    ensures FromJson(Some(ToJson(s))) == Normalize(s)
  {
    PruneKeepsNewest(s.upvoted, MaxEntries);
    PruneKeepsNewest(s.commented, MaxEntries);
    LoadMembers(Normalize(s));
  }

  /** The default state is what a missing file, bad JSON, or a file of another version loads as. */
  lemma OtherVersionLoadsDefault(text: string)
    requires Parse(text).Some? && Parse(text).value.JObj?
    requires Get(Parse(text).value.members, VersionKey) == Some(JNum(2, 0))
    ensures LoadState(Some(text)) == Default
  {
  }
}
