/**
 * The web client's adapters (apps/web/src/moltbook-google/adapters.ts):
 * API posts become the cards the pages render, and the flat comment list
 * of a post becomes a forest through each comment's `parent_id`.
 */
module Adapters {
  import opened Wrappers
  import opened Text

  // ------------------------------------------------------------ post cards

  /**
   * The fields of an API post a card reads. `text` is the excerpt for a
   * feed card and the full content for a post page; the two adapters are
   * otherwise the same.
   */
  datatype PostRow = PostRow(id: string, title: string, text: Option<string>, submolt: string, author: string,
    upvotes: int, commentCount: int, createdAt: string, score: Option<int>)

  /** `GoogleFeedItem` and `GooglePostDetail`, which have the same fields. */
  datatype Card = Card(id: string, submoit: string, author: string, timeAgo: string, title: string,
    content: Option<string>, upvotes: int, comments: int, isHot: bool)

  const SubmoltTag: string := "m/"
  const AuthorTag: string := "u/"

  /** A card is hot above this score. */
  const HotScore: int := 50

  /**
   * `toGoogleFeedItem` / `toGooglePostDetail`; `formatTimeAgo` is the
   * parameter `timeAgo`. A post without a score is never hot.
   */
  function ToCard(p: PostRow, timeAgo: string -> string): (r: Card)
    ensures StartsWith(r.submoit, SubmoltTag) && Drop(r.submoit, |SubmoltTag|) == p.submolt
    ensures StartsWith(r.author, AuthorTag) && Drop(r.author, |AuthorTag|) == p.author
    ensures r.isHot <==> p.score.Some? && p.score.value > HotScore
    ensures r.id == p.id && r.title == p.title && r.content == p.text
    ensures r.upvotes == p.upvotes && r.comments == p.commentCount && r.timeAgo == timeAgo(p.createdAt)
  {
    var r := Card(p.id, SubmoltTag + p.submolt, AuthorTag + p.author, timeAgo(p.createdAt), p.title,
      p.text, p.upvotes, p.commentCount, p.score.GetOr(0) > HotScore);
    assert r.submoit[..|SubmoltTag|] == SubmoltTag && r.author[..|AuthorTag|] == AuthorTag;
    r
  }

  /** The card keeps every field of the post apart from the creation time: two posts with one card agree. */
  lemma CardDeterminesPost(p: PostRow, q: PostRow, timeAgo: string -> string)
    requires ToCard(p, timeAgo) == ToCard(q, timeAgo)
    ensures p.(createdAt := q.createdAt, score := q.score) == q
    ensures (p.score.GetOr(0) > HotScore) == (q.score.GetOr(0) > HotScore)
  {
  }

  /** A higher score never cools a card. */
  lemma HotIsMonotone(p: PostRow, score: int, timeAgo: string -> string)
    requires ToCard(p, timeAgo).isHot && p.score.value <= score
    ensures ToCard(p.(score := Some(score)), timeAgo).isHot
  {
  }

  // ---------------------------------------------------------- comment tree

  /** `GoogleComment` without its `children`. */
  datatype Comment = Comment(id: string, parentId: Option<string>, author: string, timeAgo: string,
    content: string, upvotes: int, avatarColor: Option<string>)

  /** A comment with the comments that answer it. */
  datatype Tree = Tree(node: Comment, children: seq<Tree>)

  predicate UniqueIds(cs: seq<Comment>) {
    forall i, j :: 0 <= i < j < |cs| ==> cs[i].id != cs[j].id
  }

  /** The position of the comment with id `id`. */
  function IndexOfId(cs: seq<Comment>, id: string): (r: Option<nat>)
    ensures r.Some? ==> r.value < |cs| && cs[r.value].id == id
    ensures r.None? <==> forall i :: 0 <= i < |cs| ==> cs[i].id != id
  {
    if |cs| == 0 then None
    else if cs[0].id == id then Some(0)
    else match IndexOfId(cs[1..], id)
      case None => None
      case Some(i) => Some(i + 1)
  }

  /** Under unique ids, the comment of an id is the one at its position. */
  lemma IndexOfMember(cs: seq<Comment>, x: Comment)
    requires UniqueIds(cs) && x in cs
    ensures IndexOfId(cs, x.id).Some? && cs[IndexOfId(cs, x.id).value] == x
  {
    var k :| 0 <= k < |cs| && cs[k] == x;
    var i := IndexOfId(cs, x.id).value;
    assert cs[i].id == cs[k].id;
  }

  /** `byId.set(c.id, c)`: a known id keeps its place and takes the new value; a new id goes last. */
  function Put(m: seq<Comment>, c: Comment): (r: seq<Comment>)
    ensures |r| >= |m| && forall i :: 0 <= i < |m| ==> r[i].id == m[i].id
    ensures UniqueIds(m) ==> UniqueIds(r)
    ensures c in r
    ensures forall x :: x in r ==> x == c || x in m
    ensures forall x :: x in m && x.id != c.id ==> x in r
  {
    match IndexOfId(m, c.id)
    case Some(i) =>
      var r := m[i := c];
      assert forall x :: x in m && x.id != c.id ==> x in r by {
        forall x | x in m && x.id != c.id ensures x in r {
          var k :| 0 <= k < |m| && m[k] == x;
          assert r[k] == x;
        }
      }
      r
    case None => m + [c]
  }

  /**
   * The map's values after one `set` per item, in the map's iteration
   * order: each id appears once, at the place of its first item, with the
   * value of its last.
   */
  function Entries(items: seq<Comment>): (r: seq<Comment>)
    ensures UniqueIds(r)
    ensures forall x :: x in r ==> x in items
  {
    if |items| == 0 then []
    else
      var pre := items[..|items| - 1];
      var c := items[|items| - 1];
      var m := Entries(pre);
      var r := Put(m, c);
      assert forall i :: 0 <= i < |pre| ==> pre[i] == items[i];
      r
  }

  /** Items with distinct ids are their own entries, in their own order. */
  lemma {:induction false} EntriesOfUnique(items: seq<Comment>)
    requires UniqueIds(items)
    ensures Entries(items) == items
    decreases |items|
  {
    if |items| > 0 {
      var pre := items[..|items| - 1];
      var c := items[|items| - 1];
      EntriesOfUnique(pre);
      assert IndexOfId(pre, c.id).None? by {
        forall i | 0 <= i < |pre| ensures pre[i].id != c.id {
          assert items[i].id != items[|items| - 1].id;
        }
      }
      assert pre + [c] == items;
    }
  }

  /** Some entry of `m` has the id. */
  predicate HasId(m: seq<Comment>, id: string) {
    exists k :: 0 <= k < |m| && m[k].id == id
  }

  /** Every item's id has an entry. */
  lemma {:induction false} EntriesCoverIds(items: seq<Comment>, i: nat)
    requires i < |items|
    ensures HasId(Entries(items), items[i].id)
    decreases |items|
  {
    if i < |items| - 1 {
      EntriesCoverIds(items[..|items| - 1], i);
      CoverStep(items, i);
    } else {
      CoverLast(items);
    }
  }

  lemma CoverStep(items: seq<Comment>, i: nat)
    requires i < |items| - 1
    requires HasId(Entries(items[..|items| - 1]), items[..|items| - 1][i].id)
    ensures HasId(Entries(items), items[i].id)
  {
    var pre := items[..|items| - 1];
    var m := Entries(pre);
    assert Entries(items) == Put(m, items[|items| - 1]);
    var k :| 0 <= k < |m| && m[k].id == pre[i].id;
    assert pre[i] == items[i];
    PutKeepsId(m, items[|items| - 1], k);
  }

  lemma CoverLast(items: seq<Comment>)
    requires |items| > 0
    ensures HasId(Entries(items), items[|items| - 1].id)
  {
    var c := items[|items| - 1];
    assert Entries(items) == Put(Entries(items[..|items| - 1]), c);
    PutHasId(Entries(items[..|items| - 1]), c);
  }

  lemma PutKeepsId(m: seq<Comment>, c: Comment, k: nat)
    requires k < |m|
    ensures HasId(Put(m, c), m[k].id)
  {
    assert Put(m, c)[k].id == m[k].id;
  }

  lemma PutHasId(m: seq<Comment>, c: Comment)
    ensures HasId(Put(m, c), c.id)
  {
    var r := Put(m, c);
    assert c in r;
    var j :| 0 <= j < |r| && r[j] == c;
    assert r[j].id == c.id;
  }

  /** The entry of an id holds the last item with that id. */
  lemma {:induction false} EntriesKeepLast(items: seq<Comment>, i: nat)
    requires i < |items| && forall j :: i < j < |items| ==> items[j].id != items[i].id
    ensures items[i] in Entries(items)
    decreases |items|
  {
    var pre := items[..|items| - 1];
    if i < |pre| {
      assert forall j :: i < j < |pre| ==> pre[j] == items[j];
      EntriesKeepLast(pre, i);
      assert items[i] == pre[i];
    }
  }

  /**
   * The entry `c` is pushed under: the one named by its `parent_id` when
   * that is a non-empty string (JavaScript's truthiness) that is a key.
   */
  function Parent(m: seq<Comment>, c: Comment): (r: Option<Comment>)
    ensures r.Some? ==> r.value in m && c.parentId == Some(r.value.id) && r.value.id != ""
  {
    if c.parentId.None? || c.parentId.value == "" then None
    else match IndexOfId(m, c.parentId.value)
      case None => None
      case Some(i) => Some(m[i])
  }

  /** A comment with no parent among `m`: a null or empty `parent_id`, or one no comment has. */
  predicate Orphan(m: seq<Comment>, c: Comment) {
    c.parentId.None? || c.parentId.value == "" || forall i :: 0 <= i < |m| ==> m[i].id != c.parentId.value
  }

  /** A comment stays at the top exactly when it is an orphan. */
  lemma TopIffOrphan(m: seq<Comment>, c: Comment)
    ensures Parent(m, c).None? <==> Orphan(m, c)
  {
  }

  /** `r` is `s` with some elements left out, the rest in order. */
  predicate Subsequence(r: seq<Comment>, s: seq<Comment>) {
    if |r| == 0 then true
    else if |s| == 0 then false
    else if r[0] == s[0] then Subsequence(r[1..], s[1..])
    else Subsequence(r, s[1..])
  }

  /** The comments of `s` that `byId.values()` pushes under `p` (onto `roots` when `p` is `None`), in order. */
  function Under(m: seq<Comment>, s: seq<Comment>, p: Option<Comment>): (r: seq<Comment>)
    ensures forall x :: x in r <==> x in s && Parent(m, x) == p
    ensures Subsequence(r, s)
    ensures UniqueIds(s) ==> UniqueIds(r)
    ensures p.Some? && p.value.id == "" ==> r == []
  {
    if |s| == 0 then []
    else
      var rest := Under(m, s[1..], p);
      if Parent(m, s[0]) == p then
        var r := [s[0]] + rest;
        assert r[1..] == rest;
        assert UniqueIds(s) ==> forall x :: x in rest ==> x.id != s[0].id;
        r
      else rest
  }

  /** The entries pushed under `c`, in the map's order. */
  function Kids(m: seq<Comment>, c: Comment): seq<Comment> {
    Under(m, m, Some(c))
  }

  /** The entries pushed onto `roots`, in the map's order. */
  function Roots(m: seq<Comment>): seq<Comment> {
    Under(m, m, None)
  }

  /** The children of an entry are exactly the entries whose `parent_id` is its (non-empty) id, in order. */
  lemma KidsAreReplies(m: seq<Comment>, c: Comment)
    requires UniqueIds(m) && c in m
    ensures forall x :: x in Kids(m, c) <==> x in m && x.parentId == Some(c.id) && c.id != ""
    ensures Subsequence(Kids(m, c), m)
  {
    forall x | x in m && x.parentId == Some(c.id) && c.id != "" ensures Parent(m, x) == Some(c) {
      IndexOfMember(m, c);
    }
  }

  /**
   * The tree under `c`, `fuel` levels deep. The source follows object
   * references instead; `fuel` is the number of entries, which no parent
   * chain outgrows when links are acyclic.
   */
  function Build(m: seq<Comment>, c: Comment, fuel: nat): (r: Tree)
    ensures r.node == c
    decreases fuel, 0
  {
    if fuel == 0 then Tree(c, []) else Tree(c, Grow(m, Kids(m, c), fuel - 1))
  }

  function Grow(m: seq<Comment>, cs: seq<Comment>, fuel: nat): (r: seq<Tree>)
    ensures |r| == |cs| && forall i :: 0 <= i < |cs| ==> r[i].node == cs[i]
    decreases fuel, 1, |cs|
  {
    if |cs| == 0 then [] else [Build(m, cs[0], fuel)] + Grow(m, cs[1..], fuel)
  }

  /** `buildCommentTree`: the root comments, each with its replies below it. */
  function BuildCommentTree(items: seq<Comment>): seq<Tree> {
    var m := Entries(items);
    Grow(m, Roots(m), |m|)
  }

  /** The comments at the top of trees, in order. */
  function Tops(ts: seq<Tree>): (r: seq<Comment>)
    ensures |r| == |ts| && forall i :: 0 <= i < |ts| ==> r[i] == ts[i].node
  {
    seq(|ts|, i requires 0 <= i < |ts| => ts[i].node)
  }

  /**
   * The forest's roots are exactly the orphaned entries (a null or empty
   * `parent_id`, or one naming no comment), in the map's order.
   */
  lemma RootsAreOrphans(items: seq<Comment>)
    ensures var m := Entries(items);
      var r := BuildCommentTree(items);
      && (forall i :: 0 <= i < |r| ==> r[i].node in m && Orphan(m, r[i].node))
      && (forall x :: x in m && Orphan(m, x) ==> exists i :: 0 <= i < |r| && r[i].node == x)
      && Subsequence(Tops(r), m)
  {
    var m := Entries(items);
    var roots := Roots(m);
    var r := BuildCommentTree(items);
    assert Tops(r) == roots;
    forall i | 0 <= i < |r| ensures r[i].node in m && Orphan(m, r[i].node) {
      assert roots[i] in roots;
      TopIffOrphan(m, roots[i]);
    }
    forall x | x in m && Orphan(m, x) ensures exists i :: 0 <= i < |r| && r[i].node == x {
      TopIffOrphan(m, x);
      assert x in roots;
      var i :| 0 <= i < |roots| && roots[i] == x;
      assert r[i].node == x;
    }
  }

  /** The comments of a tree, each before its replies. */
  function Flatten(t: Tree): seq<Comment>
    decreases t, 1
  {
    [t.node] + FlattenAll(t.children)
  }

  function FlattenAll(ts: seq<Tree>): seq<Comment>
    decreases ts, 0
  {
    if |ts| == 0 then [] else Flatten(ts[0]) + FlattenAll(ts[1..])
  }

  /** An entry's children are built from exactly its replies, in input order. */
  lemma ChildrenAreReplies(items: seq<Comment>, c: Comment, fuel: nat)
    requires UniqueIds(items) && c in items && fuel > 0
    ensures var kids := Build(items, c, fuel).children;
      && (forall i :: 0 <= i < |kids| ==> kids[i].node in items && kids[i].node.parentId == Some(c.id))
      && (forall x :: x in items && x.parentId == Some(c.id) && c.id != "" ==>
            exists i :: 0 <= i < |kids| && kids[i].node == x)
      && (c.id == "" ==> kids == [])
      && Subsequence(seq(|kids|, i requires 0 <= i < |kids| => kids[i].node), items)
  {
    KidsAreReplies(items, c);
    var ks := Kids(items, c);
    var kids := Build(items, c, fuel).children;
    assert seq(|kids|, i requires 0 <= i < |kids| => kids[i].node) == ks;
    forall x | x in items && x.parentId == Some(c.id) && c.id != ""
      ensures exists i :: 0 <= i < |kids| && kids[i].node == x
    {
      var i :| 0 <= i < |ks| && ks[i] == x;
      assert kids[i].node == x;
    }
  }

  // ------------------------------------------------------ every comment once

  /** The comment `d` steps up from `x`, following parents. */
  function Anc(m: seq<Comment>, x: Comment, d: nat): Option<Comment>
    decreases d
  {
    if d == 0 then Some(x)
    else match Parent(m, x)
      case None => None
      case Some(p) => Anc(m, p, d - 1)
  }

  /** No entry is its own ancestor. */
  ghost predicate Acyclic(m: seq<Comment>) {
    forall x, d :: x in m && d > 0 ==> Anc(m, x, d) != Some(x)
  }

  /** `c` lies on `x`'s parent chain at most `f` steps up. */
  predicate Hits(m: seq<Comment>, x: Comment, c: Comment, f: nat) {
    exists d :: 0 <= d <= f && Anc(m, x, d) == Some(c)
  }

  /** One of `cs` lies on `x`'s chain within `f` steps. */
  ghost predicate SomeHits(m: seq<Comment>, x: Comment, cs: seq<Comment>, f: nat) {
    exists i :: 0 <= i < |cs| && Hits(m, x, cs[i], f)
  }

  lemma {:induction false} AncAdd(m: seq<Comment>, x: Comment, a: nat, b: nat)
    ensures Anc(m, x, a + b) == match Anc(m, x, a) case None => None case Some(y) => Anc(m, y, b)
    decreases a
  {
    if a > 0 {
      match Parent(m, x)
      case None =>
      case Some(p) => AncAdd(m, p, a - 1, b);
    }
  }

  lemma AncStep(m: seq<Comment>, x: Comment, d: nat)
    ensures Anc(m, x, d + 1) == match Anc(m, x, d) case None => None case Some(y) => Parent(m, y)
  {
    AncAdd(m, x, d, 1);
  }

  lemma AncPrefix(m: seq<Comment>, x: Comment, e: nat, d: nat)
    requires e <= d && Anc(m, x, d).Some?
    ensures Anc(m, x, e).Some?
  {
    AncAdd(m, x, e, d - e);
  }

  lemma {:induction false} AncInEntries(m: seq<Comment>, x: Comment, d: nat)
    requires x in m && Anc(m, x, d).Some?
    ensures Anc(m, x, d).value in m
    decreases d
  {
    if d > 0 {
      AncInEntries(m, Parent(m, x).value, d - 1);
    }
  }

  /** Two children of `c` on one chain are the same comment, since `c` is not its own ancestor. */
  lemma SiblingsOnOneChain(m: seq<Comment>, x: Comment, c: Comment, k1: Comment, d1: nat, k2: Comment, d2: nat)
    requires Acyclic(m) && c in m
    requires Anc(m, x, d1) == Some(k1) && Parent(m, k1) == Some(c)
    requires Anc(m, x, d2) == Some(k2) && Parent(m, k2) == Some(c)
    ensures k1 == k2
  {
    AncStep(m, x, d1);
    AncStep(m, x, d2);
    if d1 < d2 {
      AncAdd(m, x, d1 + 1, d2 - d1);
    } else if d2 < d1 {
      AncAdd(m, x, d2 + 1, d1 - d2);
    }
  }

  /** Two roots on one chain are the same comment: a chain ends at its root. */
  lemma RootsOnOneChain(m: seq<Comment>, x: Comment, r1: Comment, d1: nat, r2: Comment, d2: nat)
    requires Anc(m, x, d1) == Some(r1) && Parent(m, r1).None?
    requires Anc(m, x, d2) == Some(r2) && Parent(m, r2).None?
    ensures r1 == r2
  {
    AncStep(m, x, d1);
    AncStep(m, x, d2);
    if d1 < d2 {
      AncPrefix(m, x, d1 + 1, d2);
    } else if d2 < d1 {
      AncPrefix(m, x, d2 + 1, d1);
    }
  }

  lemma DistinctCount(s: seq<Comment>, x: Comment)
    requires UniqueIds(s)
    ensures multiset(s)[x] == if x in s then 1 else 0
  {
    if |s| > 0 {
      DistinctCount(s[1..], x);
      assert s == [s[0]] + s[1..];
      assert s[0] !in s[1..] by {
        forall i | 0 <= i < |s[1..]| ensures s[1..][i] != s[0] { assert s[i + 1].id != s[0].id; }
      }
    }
  }

  /** Every comment of a built tree is an entry. */
  lemma {:induction false} BuiltFromEntries(m: seq<Comment>, c: Comment, fuel: nat)
    requires c in m
    ensures forall x :: x in Flatten(Build(m, c, fuel)) ==> x in m
    decreases fuel, 0
  {
    if fuel > 0 {
      GrownFromEntries(m, Kids(m, c), fuel - 1);
    }
  }

  lemma {:induction false} GrownFromEntries(m: seq<Comment>, cs: seq<Comment>, fuel: nat)
    requires forall x :: x in cs ==> x in m
    ensures forall x :: x in FlattenAll(Grow(m, cs, fuel)) ==> x in m
    decreases fuel, 1, |cs|
  {
    if |cs| > 0 {
      BuiltFromEntries(m, cs[0], fuel);
      GrownFromEntries(m, cs[1..], fuel);
    }
  }

  /**
   * Under acyclic links an entry `x` occurs in the tree under `c` once
   * when `c` is on its parent chain within `fuel` steps, and otherwise
   * not at all.
   */
  lemma {:induction false} CountInBuild(m: seq<Comment>, c: Comment, fuel: nat, x: Comment)
    requires UniqueIds(m) && Acyclic(m) && c in m && x in m
    ensures multiset(Flatten(Build(m, c, fuel)))[x] == if Hits(m, x, c, fuel) then 1 else 0
    decreases fuel, 0
  {
    assert Anc(m, x, 0) == Some(x);
    if fuel > 0 {
      var ks := Kids(m, c);
      var f := fuel - 1;
      KidsOnChainDisjoint(m, c, f, x);
      CountInGrow(m, ks, f, x);
      CountBelow(m, c, fuel, x);
      ChainThroughKids(m, c, f, x);
    }
  }

  /**
   * `c` is on `x`'s chain within `f + 1` steps when `x` is `c` or when a
   * child of `c` is on it within `f`; never both.
   */
  lemma ChainThroughKids(m: seq<Comment>, c: Comment, f: nat, x: Comment)
    requires UniqueIds(m) && Acyclic(m) && c in m && x in m
    ensures var below := SomeHits(m, x, Kids(m, c), f);
      && (x == c ==> !below)
      && (Hits(m, x, c, f + 1) <==> x == c || below)
  {
    assert Anc(m, x, 0) == Some(x);
    if x == c {
      NoKidAboveParent(m, c, f);
    } else {
      HitsViaKid(m, c, f, x);
    }
  }

  /** How often `x` occurs in the tree under `c`: once for `c` itself, plus its occurrences below. */
  lemma CountBelow(m: seq<Comment>, c: Comment, fuel: nat, x: Comment)
    requires fuel > 0
    ensures multiset(Flatten(Build(m, c, fuel)))[x] ==
      (if x == c then 1 else 0) + multiset(FlattenAll(Grow(m, Kids(m, c), fuel - 1)))[x]
  {
    var below := FlattenAll(Grow(m, Kids(m, c), fuel - 1));
    assert Flatten(Build(m, c, fuel)) == [c] + below;
  }

  /** At most one child of `c` lies on `x`'s chain. */
  lemma KidsOnChainDisjoint(m: seq<Comment>, c: Comment, f: nat, x: Comment)
    requires UniqueIds(m) && Acyclic(m) && c in m
    ensures var ks := Kids(m, c);
      forall i, j :: 0 <= i < |ks| && 0 <= j < |ks| && Hits(m, x, ks[i], f) && Hits(m, x, ks[j], f) ==> i == j
  {
    var ks := Kids(m, c);
    forall i, j | 0 <= i < |ks| && 0 <= j < |ks| && Hits(m, x, ks[i], f) && Hits(m, x, ks[j], f)
      ensures i == j
    {
      var d1 :| 0 <= d1 <= f && Anc(m, x, d1) == Some(ks[i]);
      var d2 :| 0 <= d2 <= f && Anc(m, x, d2) == Some(ks[j]);
      assert ks[i] in ks && ks[j] in ks;
      SiblingsOnOneChain(m, x, c, ks[i], d1, ks[j], d2);
    }
  }

  /** No child of `c` lies on `c`'s own chain. */
  lemma NoKidAboveParent(m: seq<Comment>, c: Comment, f: nat)
    requires Acyclic(m) && c in m
    ensures forall i :: 0 <= i < |Kids(m, c)| ==> !Hits(m, c, Kids(m, c)[i], f)
  {
    var ks := Kids(m, c);
    forall i, d | 0 <= i < |ks| ensures Anc(m, c, d) != Some(ks[i]) {
      assert ks[i] in ks;
      AncStep(m, c, d);
    }
  }

  /** `c` is on the chain of another entry `x` exactly when one of its children is, one step lower. */
  lemma HitsViaKid(m: seq<Comment>, c: Comment, f: nat, x: Comment)
    requires UniqueIds(m) && c in m && x in m && x != c
    ensures Hits(m, x, c, f + 1) <==> SomeHits(m, x, Kids(m, c), f)
  {
    if SomeHits(m, x, Kids(m, c), f) {
      KidHitLiftsToParent(m, c, f, x);
    }
    if Hits(m, x, c, f + 1) {
      ParentHitComesFromKid(m, c, f, x);
    }
  }

  lemma KidHitLiftsToParent(m: seq<Comment>, c: Comment, f: nat, x: Comment)
    requires UniqueIds(m) && c in m && SomeHits(m, x, Kids(m, c), f)
    ensures Hits(m, x, c, f + 1)
  {
    var ks := Kids(m, c);
    var i :| 0 <= i < |ks| && Hits(m, x, ks[i], f);
    var d :| 0 <= d <= f && Anc(m, x, d) == Some(ks[i]);
    assert ks[i] in ks;
    AncStep(m, x, d);
    assert Anc(m, x, d + 1) == Some(c);
  }

  lemma ParentHitComesFromKid(m: seq<Comment>, c: Comment, f: nat, x: Comment)
    requires UniqueIds(m) && c in m && x in m && x != c && Hits(m, x, c, f + 1)
    ensures SomeHits(m, x, Kids(m, c), f)
  {
    var d :| 0 <= d <= f + 1 && Anc(m, x, d) == Some(c);
    assert d > 0;
    AncPrefix(m, x, d - 1, d);
    var k := Anc(m, x, d - 1).value;
    AncStep(m, x, d - 1);
    if d - 1 > 0 { AncInEntries(m, x, d - 1); }
    KidOnChain(m, c, f, x, d - 1, k);
  }

  /** An entry one step below `c` on `x`'s chain is a kid of `c` that `x` hits. */
  lemma KidOnChain(m: seq<Comment>, c: Comment, f: nat, x: Comment, d: nat, k: Comment)
    requires UniqueIds(m) && c in m && k in m && d <= f
    requires Anc(m, x, d) == Some(k) && Parent(m, k) == Some(c)
    ensures SomeHits(m, x, Kids(m, c), f)
  {
    var ks := Kids(m, c);
    assert k in ks;
    var i :| 0 <= i < |ks| && ks[i] == k;
    assert Hits(m, x, ks[i], f);
  }

  lemma {:induction false} CountInGrow(m: seq<Comment>, cs: seq<Comment>, fuel: nat, x: Comment)
    requires UniqueIds(m) && Acyclic(m) && x in m
    requires UniqueIds(cs) && forall y :: y in cs ==> y in m
    requires forall i, j :: 0 <= i < |cs| && 0 <= j < |cs| && Hits(m, x, cs[i], fuel) && Hits(m, x, cs[j], fuel) ==> i == j
    ensures multiset(FlattenAll(Grow(m, cs, fuel)))[x] ==
      if SomeHits(m, x, cs, fuel) then 1 else 0
    decreases fuel, 1, |cs|
  {
    if |cs| > 0 {
      var rest := cs[1..];
      assert forall i :: 0 <= i < |rest| ==> rest[i] == cs[i + 1];
      CountInBuild(m, cs[0], fuel, x);
      CountInGrow(m, rest, fuel, x);
      assert FlattenAll(Grow(m, cs, fuel)) == Flatten(Build(m, cs[0], fuel)) + FlattenAll(Grow(m, rest, fuel));
      if SomeHits(m, x, rest, fuel) {
        var i :| 0 <= i < |rest| && Hits(m, x, rest[i], fuel);
        assert Hits(m, x, cs[i + 1], fuel);
      }
      if SomeHits(m, x, cs, fuel) {
        var i :| 0 <= i < |cs| && Hits(m, x, cs[i], fuel);
        if i > 0 { assert Hits(m, x, rest[i - 1], fuel); }
      }
    }
  }

  /** More than `|s|` picks from `s` repeat one. */
  lemma Pigeonhole(picks: seq<Comment>, s: seq<Comment>)
    requires |picks| > |s| && forall x :: x in picks ==> x in s
    ensures exists i, j :: 0 <= i < j < |picks| && picks[i] == picks[j]
  {
    if forall i, j :: 0 <= i < j < |picks| ==> picks[i] != picks[j] {
      CardOfElements(picks);
      CardOfElements(s);
      var a := set x | x in picks;
      var b := set x | x in s;
      assert a <= b;
      SubsetCard(a, b);
      assert false;
    }
  }

  predicate AllDifferent(s: seq<Comment>) {
    forall i, j :: 0 <= i < j < |s| ==> s[i] != s[j]
  }

  lemma {:induction false} CardOfElements(s: seq<Comment>)
    ensures |set x | x in s| <= |s|
    ensures AllDifferent(s) ==> |set x | x in s| == |s|
    decreases |s|
  {
    if |s| > 0 {
      var t := s[..|s| - 1];
      CardOfElements(t);
      assert s == t + [s[|s| - 1]];
      ElementsOfSnoc(t, s[|s| - 1]);
      if AllDifferent(s) {
        DifferentInit(s);
      }
    }
  }

  lemma ElementsOfSnoc(t: seq<Comment>, last: Comment)
    ensures (set x | x in t + [last]) == (set x | x in t) + {last}
  {
  }

  lemma DifferentInit(s: seq<Comment>)
    requires |s| > 0 && AllDifferent(s)
    ensures AllDifferent(s[..|s| - 1]) && s[|s| - 1] !in s[..|s| - 1]
  {
    var t := s[..|s| - 1];
    forall i, j | 0 <= i < j < |t| ensures t[i] != t[j] {
      assert t[i] == s[i] && t[j] == s[j];
    }
    forall i | 0 <= i < |t| ensures t[i] != s[|s| - 1] {
      assert t[i] == s[i];
    }
  }

  lemma SubsetCard(a: set<Comment>, b: set<Comment>)
    requires a <= b
    ensures |a| <= |b|
  {
    assert b == a + (b - a);
  }

  /** Under acyclic links, every parent chain ends within as many steps as there are entries. */
  lemma ChainEnds(m: seq<Comment>, x: Comment)
    requires Acyclic(m) && x in m
    ensures Anc(m, x, |m|).None?
  {
    if Anc(m, x, |m|).Some? {
      ChainRepeats(m, x);
      var i, j, y :| 0 <= i < j <= |m| && y in m && Anc(m, x, i) == Some(y) && Anc(m, x, j) == Some(y);
      assert Anc(m, y, j - i) != Some(y);
      AncAdd(m, x, i, j - i);
      assert false;
    }
  }

  /** A chain `|m|` steps long passes some entry twice. */
  lemma ChainRepeats(m: seq<Comment>, x: Comment)
    requires x in m && Anc(m, x, |m|).Some?
    ensures exists i, j, y :: 0 <= i < j <= |m| && y in m && Anc(m, x, i) == Some(y) && Anc(m, x, j) == Some(y)
  {
    forall i | 0 <= i <= |m| ensures Anc(m, x, i).Some? && Anc(m, x, i).value in m {
      AncPrefix(m, x, i, |m|);
      AncInEntries(m, x, i);
    }
    var picks := seq(|m| + 1, i requires 0 <= i <= |m| => Anc(m, x, i).value);
    Pigeonhole(picks, m);
    var i, j :| 0 <= i < j < |picks| && picks[i] == picks[j];
    assert Anc(m, x, i) == Some(picks[i]) && Anc(m, x, j) == Some(picks[i]);
  }

  /** Every entry lies under exactly one root, within `|m|` steps. */
  lemma OneRoot(m: seq<Comment>, x: Comment)
    requires UniqueIds(m) && Acyclic(m) && x in m
    ensures SomeHits(m, x, Roots(m), |m|)
    ensures forall i, j ::
      0 <= i < |Roots(m)| && 0 <= j < |Roots(m)| && Hits(m, x, Roots(m)[i], |m|) && Hits(m, x, Roots(m)[j], |m|)
      ==> i == j
  {
    var roots := Roots(m);
    ChainEnds(m, x);
    var d := LastOnChain(m, x, |m|);
    var r := Anc(m, x, d).value;
    AncStep(m, x, d);
    if d > 0 { AncInEntries(m, x, d); }
    assert r in roots;
    var i :| 0 <= i < |roots| && roots[i] == r;
    assert Hits(m, x, roots[i], |m|);
    forall i, j | 0 <= i < |roots| && 0 <= j < |roots| && Hits(m, x, roots[i], |m|) && Hits(m, x, roots[j], |m|)
      ensures i == j
    {
      var d1 :| 0 <= d1 <= |m| && Anc(m, x, d1) == Some(roots[i]);
      var d2 :| 0 <= d2 <= |m| && Anc(m, x, d2) == Some(roots[j]);
      assert roots[i] in roots && roots[j] in roots;
      RootsOnOneChain(m, x, roots[i], d1, roots[j], d2);
    }
  }

  /** The last step at which a chain that ends by step `n` is still defined. */
  lemma {:induction false} LastOnChain(m: seq<Comment>, x: Comment, n: nat) returns (d: nat)
    requires Anc(m, x, n).None?
    ensures d < n && Anc(m, x, d).Some? && Anc(m, x, d + 1).None?
    decreases n
  {
    if Anc(m, x, n - 1).Some? {
      d := n - 1;
    } else {
      d := LastOnChain(m, x, n - 1);
    }
  }

  /**
   * With distinct ids and acyclic parent links, the forest holds every
   * input comment exactly once.
   */
  lemma {:induction false} EveryCommentOnce(items: seq<Comment>)
    requires UniqueIds(items) && Acyclic(items)
    ensures multiset(FlattenAll(BuildCommentTree(items))) == multiset(items)
  {
    EntriesOfUnique(items);
    var m := items;
    var forest := BuildCommentTree(items);
    assert forest == Grow(m, Roots(m), |m|);
    forall x ensures multiset(FlattenAll(forest))[x] == multiset(items)[x] {
      DistinctCount(items, x);
      if x in m {
        OneRoot(m, x);
        CountInGrow(m, Roots(m), |m|, x);
      } else {
        GrownFromEntries(m, Roots(m), |m|);
      }
    }
  }

  /** A comment whose `parent_id` is its own id hangs under itself and never reaches the forest. */
  lemma SelfReplyDropped(items: seq<Comment>, x: Comment)
    requires UniqueIds(items) && x in items && x.id != "" && x.parentId == Some(x.id)
    ensures x !in FlattenAll(BuildCommentTree(items))
  {
    EntriesOfUnique(items);
    var m := items;
    IndexOfMember(m, x);
    assert Parent(m, x) == Some(x);
    var roots := Roots(m);
    forall i | 0 <= i < |roots| ensures x !in Flatten(Build(m, roots[i], |m|)) {
      assert roots[i] in roots;
      if x in Flatten(Build(m, roots[i], |m|)) {
        OnChainOfBuilder(m, roots[i], |m|, x);
        var d :| 0 <= d <= |m| && Anc(m, x, d) == Some(roots[i]);
        SelfAncestor(m, x, d);
      }
    }
    NotInGrown(m, roots, |m|, x);
  }

  lemma {:induction false} SelfAncestor(m: seq<Comment>, x: Comment, d: nat)
    requires Parent(m, x) == Some(x)
    ensures Anc(m, x, d) == Some(x)
    decreases d
  {
    if d > 0 { SelfAncestor(m, x, d - 1); }
  }

  lemma {:induction false} NotInGrown(m: seq<Comment>, cs: seq<Comment>, fuel: nat, x: Comment)
    requires forall i :: 0 <= i < |cs| ==> x !in Flatten(Build(m, cs[i], fuel))
    ensures x !in FlattenAll(Grow(m, cs, fuel))
    decreases |cs|
  {
    if |cs| > 0 {
      NotInGrown(m, cs[1..], fuel, x);
    }
  }

  /** Every comment of the tree under `c` has `c` on its parent chain. */
  lemma {:induction false} OnChainOfBuilder(m: seq<Comment>, c: Comment, fuel: nat, x: Comment)
    requires x in Flatten(Build(m, c, fuel))
    ensures Hits(m, x, c, fuel)
    decreases fuel, 0
  {
    if x == c {
      assert Anc(m, x, 0) == Some(c);
    } else {
      var ks := Kids(m, c);
      var i := OnChainOfGrown(m, ks, fuel - 1, x);
      var d :| 0 <= d <= fuel - 1 && Anc(m, x, d) == Some(ks[i]);
      assert ks[i] in ks;
      AncStep(m, x, d);
    }
  }

  lemma {:induction false} OnChainOfGrown(m: seq<Comment>, cs: seq<Comment>, fuel: nat, x: Comment) returns (i: nat)
    requires x in FlattenAll(Grow(m, cs, fuel))
    ensures i < |cs| && Hits(m, x, cs[i], fuel)
    decreases fuel, 1, |cs|
  {
    if x in Flatten(Build(m, cs[0], fuel)) {
      OnChainOfBuilder(m, cs[0], fuel, x);
      i := 0;
    } else {
      var j := OnChainOfGrown(m, cs[1..], fuel, x);
      i := j + 1;
    }
  }
}
