/**
 * What the three post listings (GET /posts, a submolt's feed and the
 * personalized feed) share: the `sort` query parameter, the rank each sort
 * orders by, and the join of a post with its submolt and author.
 */
module PostQuery {
  import opened Wrappers
  import opened Ordering
  import opened Listing
  import opened Schema

  datatype Sort = Hot | New | Top | Rising

  /**
   * The sort a request asks for: a string in the endpoint's set, else
   * "hot". GET /posts and the submolt feed accept "rising"; the
   * personalized feed does not.
   */
  function ParseSort(raw: Option<string>, withRising: bool): (s: Sort)
    ensures s == New <==> raw == Some("new")
    ensures s == Top <==> raw == Some("top")
    ensures s == Rising <==> withRising && raw == Some("rising")
    ensures s == Hot <==> !(raw in {Some("new"), Some("top")} || (withRising && raw == Some("rising")))
  {
    var text := if raw.Some? then raw.value else "hot";
    if text == "new" then New
    else if text == "top" then Top
    else if withRising && text == "rising" then Rising
    else Hot
  }

  /**
   * The time-decay ranks of "hot" and "rising" as the database computes
   * them at query time (score over a power of the post's age in hours).
   */
  datatype Decay = Decay(hot: Post -> real, rising: Post -> real)

  /** The leading ORDER BY term of a sort; "new" has none, so every row ranks alike. */
  function Rank(sort: Sort, p: Post, decay: Decay): (r: real)
    ensures sort == New ==> r == 0.0
    ensures sort == Top ==> r == p.score as real
  {
    match sort
    case New => 0.0
    case Top => p.score as real
    case Hot => decay.hot(p)
    case Rising => decay.rising(p)
  }

  /** A post joined with its submolt's name and its author's name. */
  datatype Listed = Listed(post: Post, submolt: string, author: string)

  function SubmoltById(db: Db, id: string): Option<Submolt> {
    match Find(db.submolts, (s: Submolt) => s.id == id)
    case Some(i) => Some(db.submolts[i])
    case None => None
  }

  /** `JOIN submolts s ON s.id = p.submolt_id JOIN agents a ON a.id = p.author_agent_id` */
  function Join(db: Db, p: Post): Option<Listed> {
    match (SubmoltById(db, p.submoltId), AgentById(db, p.authorId))
    case (Some(s), Some(a)) => Some(Listed(p, s.name, a.name))
    case _ => None
  }

  /** A post a listing may show: not deleted, in scope and joinable. */
  predicate Qualifies(db: Db, p: Post, scope: Post -> bool) {
    !p.deleted && scope(p) && Join(db, p).Some?
  }

  function RankedPost(db: Db, p: Post, sort: Sort, decay: Decay): Ranked<Listed>
    requires Join(db, p).Some?
  {
    Ranked(Rank(sort, p, decay), Key(p.createdAt, p.id), Join(db, p).value)
  }

  /**
   * The rows a listing orders and pages: every qualifying post of `posts`,
   * keyed by (created_at, id).
   */
  function Candidates(db: Db, posts: seq<Post>, scope: Post -> bool, sort: Sort, decay: Decay): (r: seq<Ranked<Listed>>)
    ensures forall x :: x in r ==>
      x.row.post in posts && Qualifies(db, x.row.post, scope) && x == RankedPost(db, x.row.post, sort, decay)
    ensures forall p :: p in posts && Qualifies(db, p, scope) ==> RankedPost(db, p, sort, decay) in r
    ensures sort == New ==> UniformRank(r)
    decreases |posts|
  {
    if |posts| == 0 then []
    else
      var rest := Candidates(db, posts[1..], scope, sort, decay);
      assert forall p :: p in posts[1..] ==> p in posts;
      assert forall p :: p in posts ==> p == posts[0] || p in posts[1..];
      if Qualifies(db, posts[0], scope) then [RankedPost(db, posts[0], sort, decay)] + rest else rest
  }

  /** With unique post ids the candidates have unique listing keys. */
  lemma {:induction false} CandidatesDistinct(db: Db, posts: seq<Post>, scope: Post -> bool, sort: Sort, decay: Decay)
    requires UniqueBy(posts, (p: Post) => p.id)
    ensures DistinctKeys(Candidates(db, posts, scope, sort, decay))
    decreases |posts|
  {
    if |posts| > 0 {
      var tail := posts[1..];
      assert UniqueBy(tail, (p: Post) => p.id) by {
        forall i, j | 0 <= i < j < |tail| ensures tail[i].id != tail[j].id {
          assert tail[i] == posts[i + 1] && tail[j] == posts[j + 1];
        }
      }
      CandidatesDistinct(db, tail, scope, sort, decay);
      var rest := Candidates(db, tail, scope, sort, decay);
      forall x | x in rest ensures x.key.id != posts[0].id {
        var k :| 0 <= k < |tail| && tail[k] == x.row.post;
        assert posts[k + 1] == x.row.post;
      }
    }
  }

  /**
   * Paging by (created_at, id) under "top" skips posts: with a page size of
   * one, the best post is older than the others, so its cursor excludes them.
   */
  lemma TopPagingSkips()
    ensures Walk(SkipExample(), None, 1) == [SkipExample()[1]]
  {
    var all := SkipExample();
    SkipExampleOrder();
    WalkUnfold(all, None, 1);
    SkipExampleRest();
  }

  /** Three posts: an old low one, the best one (oldest), a new middling one. */
  function SkipExample(): seq<Ranked<int>> {
    [Ranked(0.0, Key(2, "x"), 0), Ranked(5.0, Key(1, "y"), 0), Ranked(1.0, Key(3, "z"), 0)]
  }

  lemma SkipExampleOrder()
    ensures Listing.Sort(Below(SkipExample(), None)) == [SkipExample()[1], SkipExample()[2], SkipExample()[0]]
  {
    var all := SkipExample();
    BelowNoneIsAll(all);
    assert Listing.Sort([all[2]]) == [all[2]];
    assert Listing.Sort([all[1], all[2]]) == Insert(all[1], [all[2]]) == [all[1], all[2]];
    assert Insert(all[0], [all[2]]) == [all[2], all[0]];
    assert Listing.Sort(all) == Insert(all[0], [all[1], all[2]]);
  }

  lemma SkipExampleRest()
    ensures Walk(SkipExample(), Some(Key(1, "y")), 1) == []
  {
    var all := SkipExample();
    var k := Some(Key(1, "y"));
    assert !StrLt("y", "y");
    assert Below([all[2]], k) == [];
    assert Below([all[1], all[2]], k) == [];
    assert all == [all[0], all[1], all[2]];
    assert Below(all, k) == [];
    ListIsPrefix(all, k, 1);
  }

  /**
   * ... and repeats them: the best post is older than the last row of the
   * first page, so it is below that page's cursor and comes back.
   */
  lemma TopPagingRepeats()
    ensures var all := RepeatExample();
      Walk(all, None, 2) == [all[0], all[1], all[0], all[2]]
  {
    RepeatExampleFirst();
    RepeatExampleRest();
    RepeatExampleJoin(RepeatExample());
  }

  lemma RepeatExampleJoin(all: seq<Ranked<int>>)
    requires |all| == 3
    ensures all[..2] + [all[0], all[2]] == [all[0], all[1], all[0], all[2]]
  {
  }

  lemma RepeatExampleFirst()
    ensures var all := RepeatExample();
      Walk(all, None, 2) == all[..2] + Walk(all, Some(Key(5, "q")), 2)
  {
    var all := RepeatExample();
    RepeatExampleOrder();
    WalkFromOrdered(all, 2);
    assert all[1].key == Key(5, "q");
  }

  /** On candidates already in order, the walk from the start is the first page and the walk on from its last key. */
  lemma WalkFromOrdered(all: seq<Ranked<int>>, limit: nat)
    requires 0 < limit < |all|
    requires Listing.Sort(Below(all, None)) == all
    ensures Walk(all, None, limit) == all[..limit] + Walk(all, Some(all[limit - 1].key), limit)
  {
    BelowNoneIsAll(all);
    WalkUnfold(all, None, limit);
  }

  /** Three posts: the best one, a newer second one, an old last one. */
  function RepeatExample(): seq<Ranked<int>> {
    [Ranked(5.0, Key(1, "p"), 0), Ranked(3.0, Key(5, "q"), 0), Ranked(0.0, Key(0, "r"), 0)]
  }

  lemma RepeatExampleOrder()
    ensures Listing.Sort(Below(RepeatExample(), None)) == RepeatExample()
  {
    var all := RepeatExample();
    BelowNoneIsAll(all);
    assert Listing.Sort([all[2]]) == [all[2]];
    assert Listing.Sort([all[1], all[2]]) == Insert(all[1], [all[2]]) == [all[1], all[2]];
    assert all == [all[0], all[1], all[2]];
    assert Listing.Sort(all) == Insert(all[0], [all[1], all[2]]);
  }

  lemma RepeatExampleRest()
    ensures var all := RepeatExample();
      Walk(all, Some(Key(5, "q")), 2) == [all[0], all[2]]
  {
    var all := RepeatExample();
    var k := Some(Key(5, "q"));
    assert Below([all[2]], k) == [all[2]];
    assert Below([all[1], all[2]], k) == [all[2]];
    assert all == [all[0], all[1], all[2]];
    assert Below(all, k) == [all[0], all[2]];
    assert Listing.Sort([all[0], all[2]]) == Insert(all[0], [all[2]]) == [all[0], all[2]];
    ListIsPrefix(all, k, 2);
  }
}
