/**
 * The post routes of apps/api/src/routes/v1/posts.ts other than voting:
 * create, list, read and delete a post, and create and list its comments.
 */
module Posts {
  import opened Wrappers
  import opened Json
  import opened Http
  import opened Ordering
  import opened Listing
  import opened Pagination
  import opened Schema
  import opened PostQuery
  import Paging
  import Shared

  // ------------------------------------------------------------ POST /posts

  /** The row `INSERT INTO posts` writes; counters and the deletion mark start at their column defaults. */
  function NewPost(id: string, submoltId: string, author: string, b: Shared.PostBody, now: int): Post {
    Post(id, submoltId, author, b.title, if Shared.Truthy(b.url) then LinkPost else TextPost,
      b.content, b.url, 0, 0, 0, 0, now, false)
  }

  /**
   * POST /posts by agent `me` (None when unauthenticated), with `postId`
   * the generated id and `now` the insertion time.
   */
  function CreatePost(db: Db, me: Option<string>, body: Json, isUrl: string -> bool, postId: string, now: int): (r: Run<string>)
    ensures r.result.Ok? <==>
      me.Some? && Shared.ParsePost(body, isUrl).Some? && SubmoltByName(db, Shared.ParsePost(body, isUrl).value.submolt).Some?
    ensures r.result.Fail? ==> r.db == db
    ensures me.None? ==> r.result == Fail(Unauthenticated)
    ensures me.Some? && Shared.ParsePost(body, isUrl).None? ==> r.result == Fail(Shared.InvalidBody)
    ensures r.result.Ok? ==> |r.db.posts| == |db.posts| + 1
    ensures r.result.Ok? ==>
      var b := Shared.ParsePost(body, isUrl).value;
      var p := r.db.posts[|db.posts|];
      && r.result.value == postId
      && r.db == db.(posts := db.posts + [p])
      && p.id == postId && p.authorId == me.value && p.title == b.title
      && SubmoltByName(db, b.submolt).Some? && p.submoltId == SubmoltByName(db, b.submolt).value.id
      && (p.kind == LinkPost <==> Shared.Truthy(b.url))
      && p.score == p.upvotes == p.downvotes == p.commentCount == 0 && !p.deleted
  {
    if me.None? then Reject(db, Unauthenticated)
    else match Shared.ParsePost(body, isUrl)
      case None => Reject(db, Shared.InvalidBody)
      case Some(b) =>
        match SubmoltByName(db, b.submolt)
        case None => Reject(db, SubmoltNotFound)
        case Some(sub) =>
          var p := NewPost(postId, sub.id, me.value, b, now);
          Run(db.(posts := db.posts + [p]), Ok(postId))
  }

  /** The submolt found by name is the one found again by its id, when submolt ids are unique. */
  lemma SubmoltOfName(db: Db, name: string)
    ensures SubmoltByName(db, name).Some? && UniqueBy(db.submolts, (s: Submolt) => s.id) ==>
      SubmoltById(db, SubmoltByName(db, name).value.id) == SubmoltByName(db, name)
  {
    if SubmoltByName(db, name).Some? && UniqueBy(db.submolts, (s: Submolt) => s.id) {
      var i := Find(db.submolts, (x: Submolt) => x.name == name).value;
      var j := Find(db.submolts, (s: Submolt) => s.id == db.submolts[i].id);
      assert j.Some?;
      assert db.submolts[j.value].id == db.submolts[i].id;
      assert j.value == i;
    }
  }

  // ---------------------------------------------------------- GET /posts/:id

  const PostNotFound: ApiError := Err(404, NotFound, "Post not found")

  predicate Readable(db: Db, p: Post, id: string) {
    p.id == id && !p.deleted && Join(db, p).Some?
  }

  /** GET /posts/:postId: for an authenticated caller, the live post with its submolt and author names. */
  function GetPost(db: Db, me: Option<string>, id: string): (r: Outcome<Listed>)
    ensures r.Ok? <==> me.Some? && exists i :: 0 <= i < |db.posts| && Readable(db, db.posts[i], id)
    ensures r.Ok? ==> r.value.post in db.posts && Readable(db, r.value.post, id) && Join(db, r.value.post) == Some(r.value)
    ensures r.Fail? ==> r.err == if me.None? then Unauthenticated else PostNotFound
  {
    if me.None? then Fail(Unauthenticated)
    else match Find(db.posts, (p: Post) => Readable(db, p, id))
      case Some(i) => Ok(Join(db, db.posts[i]).value)
      case None => Fail(PostNotFound)
  }

  /** A freshly created post can be read back, with its submolt and author names. */
  lemma CreateThenGet(db: Db, me: Option<string>, body: Json, isUrl: string -> bool, postId: string, now: int)
    requires UniqueBy(db.submolts, (s: Submolt) => s.id)
    requires forall i :: 0 <= i < |db.posts| ==> db.posts[i].id != postId
    requires me.Some? && AgentById(db, me.value).Some?
    ensures var r := CreatePost(db, me, body, isUrl, postId, now);
      r.result.Ok? ==>
        var got := GetPost(r.db, me, postId);
        got.Ok? && got.value.post == r.db.posts[|db.posts|] && got.value.author == AgentById(db, me.value).value.name
  {
    var r := CreatePost(db, me, body, isUrl, postId, now);
    if r.result.Ok? {
      var p := r.db.posts[|db.posts|];
      SubmoltOfName(db, Shared.ParsePost(body, isUrl).value.submolt);
      assert Join(r.db, p).Some?;
      var found := Find(r.db.posts, (q: Post) => Readable(r.db, q, postId));
      assert Readable(r.db, r.db.posts[|db.posts|], postId);
      assert found.Some?;
      assert found.value == |db.posts|;
    }
  }

  // ------------------------------------------------------- DELETE /posts/:id

  /** `UPDATE posts SET deleted_at = NOW(3) WHERE id = ? AND author_agent_id = ?` */
  function MarkDeleted(posts: seq<Post>, id: string, author: string): (r: seq<Post>)
    ensures |r| == |posts|
    ensures forall i :: 0 <= i < |posts| ==>
      r[i] == if posts[i].id == id && posts[i].authorId == author then posts[i].(deleted := true) else posts[i]
  {
    seq(|posts|, i requires 0 <= i < |posts| =>
      if posts[i].id == id && posts[i].authorId == author then posts[i].(deleted := true) else posts[i])
  }

  /**
   * DELETE /posts/:postId: soft-deletes the caller's rows with that id and
   * answers 404 when the update matched none. The update does not look at
   * `deleted_at`, so deleting an already deleted post of one's own succeeds.
   */
  function DeletePost(db: Db, me: Option<string>, id: string): (r: Run<()>)
    ensures r.result.Ok? <==> me.Some? && exists i :: 0 <= i < |db.posts| && db.posts[i].id == id && db.posts[i].authorId == me.value
    ensures r.result.Fail? ==> r.db == db && r.result.err in {Unauthenticated, PostNotFound}
    ensures r.result.Ok? ==> r.db == db.(posts := r.db.posts) && |r.db.posts| == |db.posts|
    ensures r.result.Ok? ==> forall i :: 0 <= i < |db.posts| ==>
      && (db.posts[i].id == id && db.posts[i].authorId == me.value ==> r.db.posts[i].deleted)
      && r.db.posts[i] == db.posts[i].(deleted := r.db.posts[i].deleted)
      && (r.db.posts[i].deleted != db.posts[i].deleted ==> db.posts[i].id == id)
  {
    if me.None? then Reject(db, Unauthenticated)
    else match Find(db.posts, (p: Post) => p.id == id && p.authorId == me.value)
      case None => Reject(db, PostNotFound)
      case Some(_) => Run(db.(posts := MarkDeleted(db.posts, id, me.value)), Ok(()))
  }

  /** Deleting again succeeds and changes nothing more. */
  lemma DeleteTwice(db: Db, me: Option<string>, id: string)
    ensures var first := DeletePost(db, me, id);
      first.result.Ok? ==> DeletePost(first.db, me, id) == first
  {
    var first := DeletePost(db, me, id);
    if first.result.Ok? {
      var i :| 0 <= i < |db.posts| && db.posts[i].id == id && db.posts[i].authorId == me.value;
      assert first.db.posts[i].id == id && first.db.posts[i].authorId == me.value;
      assert MarkDeleted(first.db.posts, id, me.value) == first.db.posts;
    }
  }

  /** After a delete with unique post ids the post can no longer be read. */
  lemma DeleteThenGet(db: Db, me: Option<string>, id: string)
    requires UniquePostIds(db)
    ensures var r := DeletePost(db, me, id);
      r.result.Ok? ==> GetPost(r.db, me, id) == Fail(PostNotFound)
  {
    var r := DeletePost(db, me, id);
    if r.result.Ok? {
      var k :| 0 <= k < |db.posts| && db.posts[k].id == id && db.posts[k].authorId == me.value;
      forall i | 0 <= i < |r.db.posts| ensures !Readable(r.db, r.db.posts[i], id) {
        if i != k { assert db.posts[i].id != db.posts[k].id; }
      }
    }
  }

  // --------------------------------------------------- POST /posts/:id/comments

  const InvalidParent: ApiError := Err(400, BadRequest, "Invalid parent_id")

  /** `SELECT id FROM comments WHERE id = ? AND post_id = ? AND deleted_at IS NULL` */
  predicate ParentOk(db: Db, postId: string, parent: string) {
    exists i :: 0 <= i < |db.comments| && db.comments[i].id == parent && db.comments[i].postId == postId && !db.comments[i].deleted
  }

  /** `UPDATE posts SET comment_count = comment_count + 1 WHERE id = ?` */
  function BumpCommentCount(posts: seq<Post>, id: string): (r: seq<Post>)
    ensures |r| == |posts|
    ensures forall i :: 0 <= i < |posts| ==>
      r[i] == if posts[i].id == id then posts[i].(commentCount := posts[i].commentCount + 1) else posts[i]
  {
    seq(|posts|, i requires 0 <= i < |posts| =>
      if posts[i].id == id then posts[i].(commentCount := posts[i].commentCount + 1) else posts[i])
  }

  /** The transaction body of comment creation, on an already parsed body. */
  function AddComment(db: Db, me: string, postId: string, b: Shared.CommentBody, commentId: string, now: int): Run<string> {
    if LivePost(db, postId).None? then Reject(db, PostNotFound)
    else if Shared.Truthy(b.parentId) && !ParentOk(db, postId, b.parentId.value) then Reject(db, InvalidParent)
    else
      var c := Comment(commentId, postId, me, b.parentId, b.content, 0, 0, now, false);
      Run(db.(comments := db.comments + [c], posts := BumpCommentCount(db.posts, postId)), Ok(commentId))
  }

  /**
   * POST /posts/:postId/comments: the body is parsed first, then one
   * transaction checks the post and the parent, inserts the comment and
   * bumps the post's `comment_count`.
   */
  function CreateComment(db: Db, me: Option<string>, postId: string, body: Json, commentId: string, now: int): (r: Run<string>)
    ensures r.result.Ok? <==>
      && me.Some? && Shared.ParseComment(body).Some? && LivePost(db, postId).Some?
      && (Shared.Truthy(Shared.ParseComment(body).value.parentId) ==>
            ParentOk(db, postId, Shared.ParseComment(body).value.parentId.value))
    ensures r.result.Fail? ==> r.db == db
    ensures r.result.Fail? && me.Some? && Shared.ParseComment(body).Some? ==>
      r.result.err == if LivePost(db, postId).None? then PostNotFound else InvalidParent
    ensures r.result.Ok? ==>
      var b := Shared.ParseComment(body).value;
      && r.result.value == commentId
      && r.db == db.(comments := r.db.comments, posts := r.db.posts)
      && r.db.comments == db.comments + [Comment(commentId, postId, me.value, b.parentId, b.content, 0, 0, now, false)]
      && |r.db.posts| == |db.posts|
      && (forall i :: 0 <= i < |db.posts| ==>
            r.db.posts[i] == db.posts[i].(commentCount := r.db.posts[i].commentCount)
            && r.db.posts[i].commentCount == db.posts[i].commentCount + (if db.posts[i].id == postId then 1 else 0))
  {
    if me.None? then Reject(db, Unauthenticated)
    else match Shared.ParseComment(body)
      case None => Reject(db, Shared.InvalidBody)
      case Some(b) => Atomically(db, AddComment(db, me.value, postId, b, commentId, now))
  }

  /** How many comments (deleted or not) name `postId`. */
  function CommentsOn(comments: seq<Comment>, postId: string): nat {
    if |comments| == 0 then 0
    else CommentsOn(comments[..|comments| - 1], postId) + (if comments[|comments| - 1].postId == postId then 1 else 0)
  }

  /** Every post's `comment_count` is the number of comments written on it. */
  predicate CommentCountsAgree(db: Db) {
    forall i :: 0 <= i < |db.posts| ==> db.posts[i].commentCount == CommentsOn(db.comments, db.posts[i].id)
  }

  /** Creating a comment keeps every post's `comment_count` equal to its number of comments. */
  lemma CreateCommentKeepsCounts(db: Db, me: Option<string>, postId: string, body: Json, commentId: string, now: int)
    requires CommentCountsAgree(db)
    ensures CommentCountsAgree(CreateComment(db, me, postId, body, commentId, now).db)
  {
    var r := CreateComment(db, me, postId, body, commentId, now);
    if r.result.Ok? {
      var comments := r.db.comments;
      assert comments[..|comments| - 1] == db.comments;
      forall i | 0 <= i < |r.db.posts| ensures r.db.posts[i].commentCount == CommentsOn(comments, r.db.posts[i].id) {
        assert r.db.posts[i].id == db.posts[i].id;
      }
    }
  }

  /** A new post starts with no comments, so creating one keeps the counts when its id is unused. */
  lemma CreatePostKeepsCounts(db: Db, me: Option<string>, body: Json, isUrl: string -> bool, postId: string, now: int)
    requires CommentCountsAgree(db)
    requires CommentsOn(db.comments, postId) == 0
    ensures CommentCountsAgree(CreatePost(db, me, body, isUrl, postId, now).db)
  {
  }

  // ---------------------------------------------------- GET /posts/:id/comments

  datatype CommentSort = ByNew | ByTop | ByControversial

  /** The comment `sort` parameter: "new", "top" or "controversial", else "top". */
  function ParseCommentSort(raw: Option<string>): (s: CommentSort)
    ensures s == ByNew <==> raw == Some("new")
    ensures s == ByControversial <==> raw == Some("controversial")
    ensures s == ByTop <==> !(raw == Some("new") || raw == Some("controversial"))
  {
    if raw == Some("new") then ByNew
    else if raw == Some("controversial") then ByControversial
    else ByTop
  }

  /** A comment joined with its author's name. */
  datatype CommentRow = CommentRow(comment: Comment, author: string)

  /** "new" orders by time only; "top" and "controversial" both order by score first. */
  function CommentRank(sort: CommentSort, c: Comment): (r: real)
    ensures sort == ByNew ==> r == 0.0
    ensures sort != ByNew ==> r == c.score as real
  {
    if sort == ByNew then 0.0 else c.score as real
  }

  predicate Shown(db: Db, c: Comment, postId: string) {
    c.postId == postId && !c.deleted && AgentById(db, c.authorId).Some?
  }

  function CommentRanked(db: Db, c: Comment, sort: CommentSort): Ranked<CommentRow>
    requires AgentById(db, c.authorId).Some?
  {
    Ranked(CommentRank(sort, c), Key(c.createdAt, c.id), CommentRow(c, AgentById(db, c.authorId).value.name))
  }

  function CommentCandidates(db: Db, comments: seq<Comment>, postId: string, sort: CommentSort): (r: seq<Ranked<CommentRow>>)
    ensures forall x :: x in r ==> x.row.comment in comments && Shown(db, x.row.comment, postId) && x == CommentRanked(db, x.row.comment, sort)
    ensures forall c :: c in comments && Shown(db, c, postId) ==> CommentRanked(db, c, sort) in r
    decreases |comments|
  {
    if |comments| == 0 then []
    else
      var rest := CommentCandidates(db, comments[1..], postId, sort);
      assert forall c :: c in comments ==> c == comments[0] || c in comments[1..];
      if Shown(db, comments[0], postId) then [CommentRanked(db, comments[0], sort)] + rest else rest
  }

  /** The most comments one listing returns. */
  const CommentListMax: nat := 500

  /**
   * GET /posts/:postId/comments: the live comments of the post with their
   * authors, best first, at most 500 of them; no paging. A request
   * without a valid key is refused first.
   */
  function ListComments(db: Db, me: Option<string>, postId: string, sortRaw: Option<string>): (r: Outcome<seq<Ranked<CommentRow>>>)
    ensures r.Fail? <==> me.None?
    ensures r.Fail? ==> r.err == Unauthenticated
    ensures r.Ok? ==> var all := CommentCandidates(db, db.comments, postId, ParseCommentSort(sortRaw));
      && |r.value| == (if |all| < CommentListMax then |all| else CommentListMax)
      && Sorted(r.value)
      && (forall i :: 0 <= i < |r.value| ==> r.value[i].row.comment in db.comments && Shown(db, r.value[i].row.comment, postId))
      && (|all| <= CommentListMax ==> forall c :: c in db.comments && Shown(db, c, postId) ==>
            CommentRanked(db, c, ParseCommentSort(sortRaw)) in r.value)
      && (forall x, y :: x in r.value && y in all && y !in r.value ==> !Before(y, x))
  {
    if me.None? then Fail(Unauthenticated)
    else
      var all := CommentCandidates(db, db.comments, postId, ParseCommentSort(sortRaw));
      var n := if |all| < CommentListMax then |all| else CommentListMax;
      SortedPrefix(all, n);
      Ok(Listing.Sort(all)[..n])
  }

  /** The first `n` rows of the ordered list are `n` ordered rows of the input, all of them when `n` is its length. */
  lemma SortedPrefix<T(!new)>(all: seq<Ranked<T>>, n: nat)
    requires n <= |all|
    ensures var p := Listing.Sort(all)[..n];
      && |p| == n && Sorted(p)
      && (forall x :: x in p ==> x in all)
      && (n == |all| ==> forall x :: x in all ==> x in p)
      && (forall x, y :: x in p && y in all && y !in p ==> !Before(y, x))
  {
    var sorted := Listing.Sort(all);
    SortSorted(all);
    var p := sorted[..n];
    assert forall i :: 0 <= i < n ==> p[i] == sorted[i];
    assert n == |all| ==> p == sorted;
    forall x, y | x in p && y in all && y !in p ensures !Before(y, x) {
      var i :| 0 <= i < n && p[i] == x;
      assert y in sorted;
      var j :| 0 <= j < |sorted| && sorted[j] == y;
      if j < n {
        assert p[j] == y;
      }
    }
  }

  // ---------------------------------------------------------------- GET /posts

  /** The `submolt` filter: applied only when the parameter is a non-empty string. */
  function InSubmolt(db: Db, submolt: Option<string>): Post -> bool {
    (p: Post) => !Shared.Truthy(submolt) || (SubmoltById(db, p.submoltId).Some? && SubmoltById(db, p.submoltId).value.name == submolt.value)
  }

  /** The rows GET /posts ranks and pages. */
  function PostCandidates(db: Db, sortRaw: Option<string>, submolt: Option<string>, decay: Decay): seq<Ranked<Listed>> {
    Candidates(db, db.posts, InSubmolt(db, submolt), ParseSort(sortRaw, true), decay)
  }

  /**
   * GET /posts: live posts, in the chosen order, optionally of one submolt,
   * strictly below the cursor; at most `limit` (default 25, at most 50) per
   * page, and a next cursor exactly when more matched. A request without
   * a valid key is refused first.
   */
  function ListPosts(db: Db, me: Option<string>, sortRaw: Option<string>, submolt: Option<string>, limit: LimitInput,
                     cursor: Option<string>, decay: Decay, tt: TimeText): (res: Outcome<Paging.Response<Listed>>)
    ensures res.Fail? <==> me.None?
    ensures res.Fail? ==> res.err == Unauthenticated
    ensures res.Ok? ==> var r := res.value; var n := ParseLimit(limit, DefaultLimits);
      var c := CursorKey(DecodeCursor(cursor), tt);
      && 1 <= n <= 50
      && |r.items| <= n
      && Sorted(r.items)
      && (forall i :: 0 <= i < |r.items| ==>
            var p := r.items[i].row.post;
            && p in db.posts && !p.deleted && Join(db, p) == Some(r.items[i].row)
            && (Shared.Truthy(submolt) ==> r.items[i].row.submolt == submolt.value)
            && r.items[i].key == Key(p.createdAt, p.id)
            && BelowCursor(r.items[i].key, c))
      && (r.nextCursor.Some? <==> |Below(PostCandidates(db, sortRaw, submolt, decay), c)| > n)
      && (r.nextCursor.Some? ==> |r.items| == n)
      && (r.nextCursor.None? ==> forall p ::
            p in db.posts && Qualifies(db, p, InSubmolt(db, submolt)) && BelowCursor(Key(p.createdAt, p.id), c) ==>
              RankedPost(db, p, ParseSort(sortRaw, true), decay) in r.items)
  {
    if me.None? then Fail(Unauthenticated)
    else Ok(Paging.Serve(PostCandidates(db, sortRaw, submolt, decay), cursor, limit, DefaultLimits, tt))
  }

  /**
   * Pagination completeness under sort "new": with unique post ids, a
   * client that follows `next_cursor` from the start sees every matching
   * post, each once, newest first.
   */
  lemma NewestFirstIsComplete(db: Db, submolt: Option<string>, decay: Decay, limit: nat)
    requires limit > 0 && UniquePostIds(db)
    ensures var all := PostCandidates(db, Some("new"), submolt, decay);
      var w := Walk(all, None, limit);
      && (forall p :: p in db.posts && Qualifies(db, p, InSubmolt(db, submolt)) ==> RankedPost(db, p, New, decay) in w)
      && (forall x :: x in w ==> x.row.post in db.posts && Qualifies(db, x.row.post, InSubmolt(db, submolt)))
      && KeysDescending(w)
  {
    var all := PostCandidates(db, Some("new"), submolt, decay);
    CandidatesDistinct(db, db.posts, InSubmolt(db, submolt), New, decay);
    WalkFromStartIsComplete(all, limit);
  }
}
