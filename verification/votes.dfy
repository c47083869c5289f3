/**
 * The vote ledger: `votePost` (apps/api/src/routes/v1/posts.ts) and the
 * comment upvote transaction (apps/api/src/routes/v1/comments.ts). Each
 * call looks up the live target and the caller's vote on it, writes or
 * rewrites that vote, moves the target's counters by the difference and
 * re-reads them.
 *
 * The invariant the ledger keeps is that every target's counters agree
 * with the votes on it: the score is the sum of their values and each
 * bucket counts the votes holding its value.
 */
module Votes {
  import opened Wrappers
  import opened Http
  import opened Schema

  // ---------------------------------------------------------------- tallies

  /** The sum of `f` over the ledger rows. */
  function Tally(votes: seq<Vote>, f: Vote -> int): int
    decreases |votes|
  {
    if |votes| == 0 then 0 else Tally(votes[..|votes| - 1], f) + f(votes[|votes| - 1])
  }

  lemma TallyAppend(votes: seq<Vote>, v: Vote, f: Vote -> int)
    ensures Tally(votes + [v], f) == Tally(votes, f) + f(v)
  {
    assert (votes + [v])[..|votes|] == votes;
  }

  lemma {:induction false} TallyUpdate(votes: seq<Vote>, i: nat, v: Vote, f: Vote -> int)
    requires i < |votes|
    ensures Tally(votes[i := v], f) == Tally(votes, f) - f(votes[i]) + f(v)
    decreases |votes|
  {
    var n := |votes| - 1;
    if i < n {
      TallyUpdate(votes[..n], i, v, f);
      assert votes[i := v][..n] == votes[..n][i := v];
    } else {
      assert votes[i := v][..n] == votes[..n];
    }
  }

  /** A vote's contribution to the score of a target. */
  function ValueOn(kind: TargetKind, target: string): Vote -> int {
    (v: Vote) => if v.kind == kind && v.targetId == target then v.value else 0
  }

  /** 1 for a vote holding `value` on the target, else 0. */
  function CountOn(kind: TargetKind, target: string, value: int): Vote -> int {
    (v: Vote) => if v.kind == kind && v.targetId == target && v.value == value then 1 else 0
  }

  function Score(votes: seq<Vote>, kind: TargetKind, target: string): int {
    Tally(votes, ValueOn(kind, target))
  }

  function Count(votes: seq<Vote>, kind: TargetKind, target: string, value: int): int {
    Tally(votes, CountOn(kind, target, value))
  }

  lemma {:induction false} CountNonNegative(votes: seq<Vote>, kind: TargetKind, target: string, value: int)
    ensures Count(votes, kind, target, value) >= 0
    decreases |votes|
  {
    if |votes| > 0 {
      CountNonNegative(votes[..|votes| - 1], kind, target, value);
    }
  }

  /** A post's counters agree with the ledger. */
  predicate PostAgrees(p: Post, votes: seq<Vote>) {
    p.score == Score(votes, PostTarget, p.id)
    && p.upvotes == Count(votes, PostTarget, p.id, 1)
    && p.downvotes == Count(votes, PostTarget, p.id, -1)
  }

  /** A comment's counters agree with the ledger (comments have no downvote counter). */
  predicate CommentAgrees(c: Comment, votes: seq<Vote>) {
    c.score == Score(votes, CommentTarget, c.id)
    && c.upvotes == Count(votes, CommentTarget, c.id, 1)
  }

  predicate LedgerAgrees(db: Db) {
    (forall i :: 0 <= i < |db.posts| ==> PostAgrees(db.posts[i], db.votes))
    && (forall i :: 0 <= i < |db.comments| ==> CommentAgrees(db.comments[i], db.votes))
  }

  /** The same agent never has two rows on one target. */
  predicate OneVotePerKey(votes: seq<Vote>) {
    forall i, j :: 0 <= i < j < |votes| ==>
      !(votes[i].agentId == votes[j].agentId && votes[i].kind == votes[j].kind && votes[i].targetId == votes[j].targetId)
  }

  /** The post votes hold +1 or -1 only. */
  predicate PostVotesAreSigns(votes: seq<Vote>) {
    forall i :: 0 <= i < |votes| && votes[i].kind == PostTarget ==> votes[i].value == 1 || votes[i].value == -1
  }

  lemma {:induction false} SignsSplit(votes: seq<Vote>, target: string)
    requires PostVotesAreSigns(votes)
    ensures Score(votes, PostTarget, target) == Count(votes, PostTarget, target, 1) - Count(votes, PostTarget, target, -1)
    decreases |votes|
  {
    if |votes| > 0 {
      var n := |votes| - 1;
      assert PostVotesAreSigns(votes[..n]) by {
        forall i | 0 <= i < n && votes[..n][i].kind == PostTarget ensures votes[..n][i].value == 1 || votes[..n][i].value == -1 {
          assert votes[..n][i] == votes[i];
        }
      }
      SignsSplit(votes[..n], target);
    }
  }

  /**
   * With post votes of +1 and -1 only, a post whose counters agree with the
   * ledger has `score == upvotes - downvotes` and non-negative buckets.
   */
  lemma ScoreIsDifference(p: Post, votes: seq<Vote>)
    requires PostAgrees(p, votes) && PostVotesAreSigns(votes)
    ensures p.score == p.upvotes - p.downvotes
    ensures p.upvotes >= 0 && p.downvotes >= 0
  {
    SignsSplit(votes, p.id);
    CountNonNegative(votes, PostTarget, p.id, 1);
    CountNonNegative(votes, PostTarget, p.id, -1);
  }

  /** With only +1 votes on a comment, its agreeing counters satisfy `score == upvotes`. */
  lemma {:induction false} CommentScoreIsUpvotes(c: Comment, votes: seq<Vote>)
    requires CommentAgrees(c, votes)
    requires forall i :: 0 <= i < |votes| && votes[i].kind == CommentTarget && votes[i].targetId == c.id ==> votes[i].value == 1
    ensures c.score == c.upvotes
    decreases |votes|
  {
    if |votes| > 0 {
      var n := |votes| - 1;
      var prefix := votes[..n];
      var c' := c.(score := Score(prefix, CommentTarget, c.id), upvotes := Count(prefix, CommentTarget, c.id, 1));
      assert forall i :: 0 <= i < n ==> prefix[i] == votes[i];
      CommentScoreIsUpvotes(c', prefix);
    }
  }

  // ------------------------------------------------------------ one call

  /** The counters a vote call re-reads and returns. */
  datatype Counts = Counts(score: int, upvotes: int, downvotes: int)

  const NoChange: Counts := Counts(0, 0, 0)

  /** The caller's row on a target: the `LIMIT 1` lookup of both handlers. */
  function FindVote(votes: seq<Vote>, agent: string, kind: TargetKind, target: string): (r: Option<nat>)
    ensures r.Some? ==>
      r.value < |votes| && votes[r.value].agentId == agent && votes[r.value].kind == kind && votes[r.value].targetId == target
    ensures r.None? ==> forall i :: 0 <= i < |votes| ==>
      !(votes[i].agentId == agent && votes[i].kind == kind && votes[i].targetId == target)
  {
    Find(votes, (v: Vote) => v.agentId == agent && v.kind == kind && v.targetId == target)
  }

  /**
   * The ledger after the call: the new row appended when there was none,
   * the existing row's value rewritten when it differs, else unchanged.
   */
  function Record(votes: seq<Vote>, found: Option<nat>, v: Vote): (r: seq<Vote>)
    requires found.Some? ==> found.value < |votes|
    ensures found.None? ==> r == votes + [v]
    ensures found.Some? ==> r == votes[found.value := votes[found.value].(value := v.value)]
  {
    if found.None? then votes + [v]
    else if votes[found.value].value != v.value then votes[found.value := votes[found.value].(value := v.value)]
    else
      assert votes[found.value := votes[found.value].(value := v.value)] == votes;
      votes
  }

  /** Both handlers only append when the lookup found nothing, so one row per key is kept. */
  lemma RecordKeepsOneVotePerKey(votes: seq<Vote>, v: Vote)
    requires OneVotePerKey(votes)
    ensures var found := FindVote(votes, v.agentId, v.kind, v.targetId);
      OneVotePerKey(Record(votes, found, v))
  {
  }

  /** The counter deltas of `votePost`: score, upvotes, downvotes. */
  function PostDelta(existing: Option<int>, value: int): (d: Counts)
    requires value == 1 || value == -1
    ensures existing == Some(value) ==> d == NoChange
    ensures existing.None? ==> d.score == value
    ensures existing.Some? ==> d.score == value - existing.value
    ensures existing.None? || existing.value == 1 || existing.value == -1 ==> d.score == d.upvotes - d.downvotes
  {
    if existing.None? then Counts(value, if value == 1 then 1 else 0, if value == -1 then 1 else 0)
    else if existing.value != value then
      Counts(value - existing.value,
        (if existing.value == 1 then -1 else 0) + (if value == 1 then 1 else 0),
        (if existing.value == -1 then -1 else 0) + (if value == -1 then 1 else 0))
    else NoChange
  }

  /** The counter deltas of a comment upvote (scoreDelta, upDelta). */
  function CommentDelta(existing: Option<int>): (d: Counts)
    ensures existing == Some(1) ==> d == NoChange
    ensures existing.None? ==> d == Counts(1, 1, 0)
    ensures existing.Some? && existing.value != 1 ==> d == Counts(1 - existing.value, 1, 0)
    ensures d.downvotes == 0
  {
    if existing.None? then Counts(1, 1, 0)
    else if existing.value != 1 then Counts(1 - existing.value, 1, 0)
    else NoChange
  }

  function ValueAt(votes: seq<Vote>, found: Option<nat>): Option<int>
    requires found.Some? ==> found.value < |votes|
  {
    if found.Some? then Some(votes[found.value].value) else None
  }

  // ------------------------------------------------------------ votePost

  const PostNotFound: ApiError := Err(404, NotFound, "Post not found")

  function AddToPost(p: Post, d: Counts): Post {
    p.(score := p.score + d.score, upvotes := p.upvotes + d.upvotes, downvotes := p.downvotes + d.downvotes)
  }

  function PostCounts(p: Post): Counts {
    Counts(p.score, p.upvotes, p.downvotes)
  }

  /** The re-read `SELECT score, upvotes, downvotes FROM posts WHERE id = ? LIMIT 1`. */
  function ReadPostCounts(posts: seq<Post>, id: string): Counts {
    match Find(posts, (p: Post) => p.id == id)
    case Some(j) => PostCounts(posts[j])
    case None => NoChange
  }

  /** What `votePost` returns: the author and the counters after the vote. */
  datatype PostVote = PostVote(authorId: string, authorName: string, counts: Counts)

  function AuthorName(db: Db, id: string): string {
    match AgentById(db, id)
    case Some(a) => a.name
    case None => "unknown"
  }

  /**
   * `votePost(postId, voterId, value)` as one transaction; `voteId` is the
   * id generated for a new ledger row.
   */
  function VotePost(db: Db, postId: string, voter: string, value: int, voteId: string): (r: Run<PostVote>)
    requires value == 1 || value == -1
    ensures r.result.Fail? <==> LivePost(db, postId).None?
    ensures r.result.Fail? ==> r.db == db && r.result.err == PostNotFound
    ensures r.result.Ok? ==> r.db == db.(votes := r.db.votes, posts := r.db.posts)
    ensures r.result.Ok? ==>
      |r.db.posts| == |db.posts| && forall j :: 0 <= j < |db.posts| && j != LivePost(db, postId).value ==> r.db.posts[j] == db.posts[j]
    ensures r.result.Ok? && UniquePostIds(db) ==>
      r.result.value.counts == PostCounts(r.db.posts[LivePost(db, postId).value])
  {
    match LivePost(db, postId)
    case None => Reject(db, PostNotFound)
    case Some(i) =>
      var post := db.posts[i];
      var found := FindVote(db.votes, voter, PostTarget, postId);
      var d := PostDelta(ValueAt(db.votes, found), value);
      var posts := if d != NoChange then db.posts[i := AddToPost(post, d)] else db.posts;
      var after := db.(votes := Record(db.votes, found, Vote(voteId, voter, PostTarget, postId, value)), posts := posts);
      ReadFindsRow(db.posts, posts, i, postId);
      Run(after, Ok(PostVote(post.authorId, AuthorName(db, post.authorId), ReadPostCounts(posts, postId))))
  }

  /** With unique ids the re-read finds the row the call updated. */
  lemma ReadFindsRow(before: seq<Post>, after: seq<Post>, i: nat, id: string)
    requires i < |before| == |after| && before[i].id == id && after[i].id == id
    requires forall j :: 0 <= j < |before| ==> after[j].id == before[j].id
    ensures UniqueBy(before, (p: Post) => p.id) ==> ReadPostCounts(after, id) == PostCounts(after[i])
  {
    if UniqueBy(before, (p: Post) => p.id) {
      var found := Find(after, (p: Post) => p.id == id);
      assert found.Some?;
      assert before[found.value].id == id;
      assert found.value == i;
    }
  }

  /** A first vote inserts exactly one row; the score moves by the value and only the matching bucket grows. */
  lemma FirstPostVote(db: Db, postId: string, voter: string, value: int, voteId: string)
    requires value == 1 || value == -1
    requires LivePost(db, postId).Some?
    requires FindVote(db.votes, voter, PostTarget, postId).None?
    ensures var r := VotePost(db, postId, voter, value, voteId);
      var i := LivePost(db, postId).value;
      var p := db.posts[i];
      r.result.Ok?
      && r.db.votes == db.votes + [Vote(voteId, voter, PostTarget, postId, value)]
      && r.db.posts[i].score == p.score + value
      && r.db.posts[i].upvotes == p.upvotes + (if value == 1 then 1 else 0)
      && r.db.posts[i].downvotes == p.downvotes + (if value == -1 then 1 else 0)
  {
  }

  /** Voting again with the same value changes nothing at all. */
  lemma RepeatPostVote(db: Db, postId: string, voter: string, value: int, voteId: string)
    requires value == 1 || value == -1
    requires LivePost(db, postId).Some?
    requires var found := FindVote(db.votes, voter, PostTarget, postId);
      found.Some? && db.votes[found.value].value == value
    ensures VotePost(db, postId, voter, value, voteId).db == db
  {
  }

  /**
   * Flipping a vote rewrites the row in place; the score moves by two and
   * one vote moves from the old bucket to the new one.
   */
  lemma FlipPostVote(db: Db, postId: string, voter: string, value: int, voteId: string)
    requires value == 1 || value == -1
    requires LivePost(db, postId).Some?
    requires var found := FindVote(db.votes, voter, PostTarget, postId);
      found.Some? && db.votes[found.value].value == -value
    ensures var r := VotePost(db, postId, voter, value, voteId);
      var k := FindVote(db.votes, voter, PostTarget, postId).value;
      var i := LivePost(db, postId).value;
      var p := db.posts[i];
      r.result.Ok?
      && r.db.votes == db.votes[k := db.votes[k].(value := value)]
      && r.db.posts[i].score == p.score + 2 * value
      && r.db.posts[i].upvotes == p.upvotes + value
      && r.db.posts[i].downvotes == p.downvotes - value
  {
  }

  /** Only the posts ledger of `id` moves when a vote on post `id` is recorded. */
  lemma OtherTalliesUnchanged(votes: seq<Vote>, found: Option<nat>, v: Vote, kind: TargetKind, target: string, value: int)
    requires found.Some? ==> found.value < |votes| && votes[found.value].kind == v.kind && votes[found.value].targetId == v.targetId
    requires kind != v.kind || target != v.targetId
    ensures Score(Record(votes, found, v), kind, target) == Score(votes, kind, target)
    ensures Count(Record(votes, found, v), kind, target, value) == Count(votes, kind, target, value)
  {
    if found.None? {
      TallyAppend(votes, v, ValueOn(kind, target));
      TallyAppend(votes, v, CountOn(kind, target, value));
    } else {
      var k := found.value;
      TallyUpdate(votes, k, votes[k].(value := v.value), ValueOn(kind, target));
      TallyUpdate(votes, k, votes[k].(value := v.value), CountOn(kind, target, value));
    }
  }

  /** The target's tallies move exactly as the deltas say. */
  lemma TargetTalliesMove(votes: seq<Vote>, found: Option<nat>, v: Vote, value: int)
    requires found.Some? ==> found.value < |votes| && votes[found.value].kind == v.kind && votes[found.value].targetId == v.targetId
    ensures var prior := ValueAt(votes, found);
      var after := Record(votes, found, v);
      && Score(after, v.kind, v.targetId) == Score(votes, v.kind, v.targetId) + v.value - (if prior.Some? then prior.value else 0)
      && Count(after, v.kind, v.targetId, value) == Count(votes, v.kind, v.targetId, value)
        + (if v.value == value then 1 else 0) - (if prior == Some(value) then 1 else 0)
  {
    if found.None? {
      TallyAppend(votes, v, ValueOn(v.kind, v.targetId));
      TallyAppend(votes, v, CountOn(v.kind, v.targetId, value));
    } else {
      var k := found.value;
      TallyUpdate(votes, k, votes[k].(value := v.value), ValueOn(v.kind, v.targetId));
      TallyUpdate(votes, k, votes[k].(value := v.value), CountOn(v.kind, v.targetId, value));
    }
  }

  /** A post other than the vote's target keeps agreeing with the ledger. */
  lemma UnrelatedPostAgrees(p: Post, votes: seq<Vote>, found: Option<nat>, v: Vote)
    requires found.Some? ==> found.value < |votes| && votes[found.value].kind == v.kind && votes[found.value].targetId == v.targetId
    requires v.kind != PostTarget || p.id != v.targetId
    requires PostAgrees(p, votes)
    ensures PostAgrees(p, Record(votes, found, v))
  {
    OtherTalliesUnchanged(votes, found, v, PostTarget, p.id, 1);
    OtherTalliesUnchanged(votes, found, v, PostTarget, p.id, -1);
  }

  /** A comment other than the vote's target keeps agreeing with the ledger. */
  lemma UnrelatedCommentAgrees(c: Comment, votes: seq<Vote>, found: Option<nat>, v: Vote)
    requires found.Some? ==> found.value < |votes| && votes[found.value].kind == v.kind && votes[found.value].targetId == v.targetId
    requires v.kind != CommentTarget || c.id != v.targetId
    requires CommentAgrees(c, votes)
    ensures CommentAgrees(c, Record(votes, found, v))
  {
    OtherTalliesUnchanged(votes, found, v, CommentTarget, c.id, 1);
  }

  /** The voted post, moved by `votePost`'s deltas, agrees with the new ledger. */
  lemma VotedPostAgrees(p: Post, votes: seq<Vote>, found: Option<nat>, v: Vote)
    requires found.Some? ==> found.value < |votes| && votes[found.value].kind == v.kind && votes[found.value].targetId == v.targetId
    requires v.kind == PostTarget && p.id == v.targetId && (v.value == 1 || v.value == -1)
    requires PostAgrees(p, votes)
    ensures var d := PostDelta(ValueAt(votes, found), v.value);
      PostAgrees(if d != NoChange then AddToPost(p, d) else p, Record(votes, found, v))
  {
    TargetTalliesMove(votes, found, v, 1);
    TargetTalliesMove(votes, found, v, -1);
  }

  /** The upvoted comment, moved by the handler's deltas, agrees with the new ledger. */
  lemma VotedCommentAgrees(c: Comment, votes: seq<Vote>, found: Option<nat>, v: Vote)
    requires found.Some? ==> found.value < |votes| && votes[found.value].kind == v.kind && votes[found.value].targetId == v.targetId
    requires v.kind == CommentTarget && c.id == v.targetId && v.value == 1
    requires CommentAgrees(c, votes)
    ensures var d := CommentDelta(ValueAt(votes, found));
      CommentAgrees(if d != NoChange then AddToComment(c, d) else c, Record(votes, found, v))
  {
    TargetTalliesMove(votes, found, v, 1);
  }

  /** `votePost` keeps every counter in agreement with the ledger. */
  lemma VotePostKeepsLedger(db: Db, postId: string, voter: string, value: int, voteId: string)
    requires value == 1 || value == -1
    requires UniquePostIds(db) && LedgerAgrees(db)
    ensures LedgerAgrees(VotePost(db, postId, voter, value, voteId).db)
  {
    var r := VotePost(db, postId, voter, value, voteId);
    if r.result.Ok? {
      var i := LivePost(db, postId).value;
      var found := FindVote(db.votes, voter, PostTarget, postId);
      var v := Vote(voteId, voter, PostTarget, postId, value);
      assert r.db.votes == Record(db.votes, found, v);
      VotedPostAgrees(db.posts[i], db.votes, found, v);
      forall j | 0 <= j < |r.db.posts| && j != i ensures PostAgrees(r.db.posts[j], r.db.votes) {
        UnrelatedPostAgrees(db.posts[j], db.votes, found, v);
      }
      forall j | 0 <= j < |r.db.comments| ensures CommentAgrees(r.db.comments[j], r.db.votes) {
        UnrelatedCommentAgrees(db.comments[j], db.votes, found, v);
      }
    }
  }

  /** `votePost` keeps one row per key and post votes of +1 and -1 only. */
  lemma VotePostKeepsKeys(db: Db, postId: string, voter: string, value: int, voteId: string)
    requires value == 1 || value == -1
    ensures OneVotePerKey(db.votes) ==> OneVotePerKey(VotePost(db, postId, voter, value, voteId).db.votes)
    ensures PostVotesAreSigns(db.votes) ==> PostVotesAreSigns(VotePost(db, postId, voter, value, voteId).db.votes)
  {
    if OneVotePerKey(db.votes) {
      RecordKeepsOneVotePerKey(db.votes, Vote(voteId, voter, PostTarget, postId, value));
    }
  }

  // --------------------------------------------------------- comment upvote

  const CommentNotFound: ApiError := Err(404, NotFound, "Comment not found")

  /** The live comment `id`: `WHERE id = ? AND deleted_at IS NULL LIMIT 1`. */
  function LiveComment(db: Db, id: string): (r: Option<nat>)
    ensures r.Some? ==> r.value < |db.comments| && db.comments[r.value].id == id && !db.comments[r.value].deleted
    ensures r.None? <==> forall i :: 0 <= i < |db.comments| ==> !(db.comments[i].id == id && !db.comments[i].deleted)
  {
    Find(db.comments, (c: Comment) => c.id == id && !c.deleted)
  }

  function AddToComment(c: Comment, d: Counts): Comment {
    c.(score := c.score + d.score, upvotes := c.upvotes + d.upvotes)
  }

  /** The re-read `SELECT score, upvotes FROM comments WHERE id = ? LIMIT 1`. */
  function ReadCommentCounts(comments: seq<Comment>, id: string): Counts {
    match Find(comments, (c: Comment) => c.id == id)
    case Some(j) => Counts(comments[j].score, comments[j].upvotes, 0)
    case None => NoChange
  }

  /** The comment upvote handler's transaction; it only ever writes the value 1. */
  function UpvoteComment(db: Db, commentId: string, voter: string, voteId: string): (r: Run<Counts>)
    ensures r.result.Fail? <==> LiveComment(db, commentId).None?
    ensures r.result.Fail? ==> r.db == db && r.result.err == CommentNotFound
    ensures r.result.Ok? ==> r.db == db.(votes := r.db.votes, comments := r.db.comments)
    ensures r.result.Ok? ==>
      |r.db.comments| == |db.comments| && forall j :: 0 <= j < |db.comments| && j != LiveComment(db, commentId).value ==> r.db.comments[j] == db.comments[j]
    ensures r.result.Ok? && UniqueCommentIds(db) ==>
      var c := r.db.comments[LiveComment(db, commentId).value];
      r.result.value == Counts(c.score, c.upvotes, 0)
  {
    match LiveComment(db, commentId)
    case None => Reject(db, CommentNotFound)
    case Some(i) =>
      var found := FindVote(db.votes, voter, CommentTarget, commentId);
      var d := CommentDelta(ValueAt(db.votes, found));
      var comments := if d != NoChange then db.comments[i := AddToComment(db.comments[i], d)] else db.comments;
      var after := db.(votes := Record(db.votes, found, Vote(voteId, voter, CommentTarget, commentId, 1)), comments := comments);
      ReadFindsComment(db.comments, comments, i, commentId);
      Run(after, Ok(ReadCommentCounts(comments, commentId)))
  }

  lemma ReadFindsComment(before: seq<Comment>, after: seq<Comment>, i: nat, id: string)
    requires i < |before| == |after| && before[i].id == id && after[i].id == id
    requires forall j :: 0 <= j < |before| ==> after[j].id == before[j].id
    ensures UniqueBy(before, (c: Comment) => c.id) ==>
      ReadCommentCounts(after, id) == Counts(after[i].score, after[i].upvotes, 0)
  {
    if UniqueBy(before, (c: Comment) => c.id) {
      var found := Find(after, (c: Comment) => c.id == id);
      assert found.Some?;
      assert before[found.value].id == id;
      assert found.value == i;
    }
  }

  /** A first upvote inserts a +1 row and adds one to both score and upvotes. */
  lemma FirstCommentUpvote(db: Db, commentId: string, voter: string, voteId: string)
    requires LiveComment(db, commentId).Some?
    requires FindVote(db.votes, voter, CommentTarget, commentId).None?
    ensures var r := UpvoteComment(db, commentId, voter, voteId);
      var i := LiveComment(db, commentId).value;
      r.result.Ok?
      && r.db.votes == db.votes + [Vote(voteId, voter, CommentTarget, commentId, 1)]
      && r.db.comments[i].score == db.comments[i].score + 1
      && r.db.comments[i].upvotes == db.comments[i].upvotes + 1
  {
  }

  /** Upvoting again changes nothing at all. */
  lemma RepeatCommentUpvote(db: Db, commentId: string, voter: string, voteId: string)
    requires LiveComment(db, commentId).Some?
    requires var found := FindVote(db.votes, voter, CommentTarget, commentId);
      found.Some? && db.votes[found.value].value == 1
    ensures UpvoteComment(db, commentId, voter, voteId).db == db
  {
  }

  /**
   * A stale row holding another value is rewritten to 1: the score moves by
   * `1 - old` and upvotes by one, so `score == upvotes` is kept only while
   * every comment vote is already +1.
   */
  lemma StaleCommentVote(db: Db, commentId: string, voter: string, voteId: string)
    requires LiveComment(db, commentId).Some?
    requires var found := FindVote(db.votes, voter, CommentTarget, commentId);
      found.Some? && db.votes[found.value].value != 1
    ensures var r := UpvoteComment(db, commentId, voter, voteId);
      var k := FindVote(db.votes, voter, CommentTarget, commentId).value;
      var i := LiveComment(db, commentId).value;
      r.result.Ok?
      && r.db.votes == db.votes[k := db.votes[k].(value := 1)]
      && r.db.comments[i].score == db.comments[i].score + 1 - db.votes[k].value
      && r.db.comments[i].upvotes == db.comments[i].upvotes + 1
  {
  }

  /** The comment upvote keeps every counter in agreement with the ledger. */
  lemma UpvoteCommentKeepsLedger(db: Db, commentId: string, voter: string, voteId: string)
    requires UniqueCommentIds(db) && LedgerAgrees(db)
    ensures LedgerAgrees(UpvoteComment(db, commentId, voter, voteId).db)
  {
    var r := UpvoteComment(db, commentId, voter, voteId);
    if r.result.Ok? {
      var i := LiveComment(db, commentId).value;
      var found := FindVote(db.votes, voter, CommentTarget, commentId);
      var v := Vote(voteId, voter, CommentTarget, commentId, 1);
      assert r.db.votes == Record(db.votes, found, v);
      VotedCommentAgrees(db.comments[i], db.votes, found, v);
      forall j | 0 <= j < |r.db.comments| && j != i ensures CommentAgrees(r.db.comments[j], r.db.votes) {
        UnrelatedCommentAgrees(db.comments[j], db.votes, found, v);
      }
      forall j | 0 <= j < |r.db.posts| ensures PostAgrees(r.db.posts[j], r.db.votes) {
        UnrelatedPostAgrees(db.posts[j], db.votes, found, v);
      }
    }
  }

  /** The comment upvote keeps one row per key and leaves post votes alone. */
  lemma UpvoteCommentKeepsKeys(db: Db, commentId: string, voter: string, voteId: string)
    ensures OneVotePerKey(db.votes) ==> OneVotePerKey(UpvoteComment(db, commentId, voter, voteId).db.votes)
    ensures PostVotesAreSigns(db.votes) ==> PostVotesAreSigns(UpvoteComment(db, commentId, voter, voteId).db.votes)
  {
    if OneVotePerKey(db.votes) {
      RecordKeepsOneVotePerKey(db.votes, Vote(voteId, voter, CommentTarget, commentId, 1));
    }
  }
}
