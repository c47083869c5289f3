/**
 * The personalized feed (apps/api/src/routes/v1/feed.ts): live posts whose
 * author the caller follows or whose submolt the caller subscribes to,
 * paged like every listing, with a fall back to the global feed.
 */
module Feed {
  import opened Wrappers
  import opened Http
  import opened Ordering
  import opened Listing
  import opened Pagination
  import opened Schema
  import opened PostQuery
  import Paging

  /** The personalized scope of agent `me`. */
  function FeedScope(db: Db, me: string): Post -> bool {
    (p: Post) => (me, p.authorId) in db.follows || (me, p.submoltId) in db.subscriptions
  }

  /** The global feed's scope: every post. */
  function Everything(): Post -> bool {
    (p: Post) => true
  }

  function Personal(db: Db, me: string, sort: Sort, decay: Decay): seq<Ranked<Listed>> {
    Candidates(db, db.posts, FeedScope(db, me), sort, decay)
  }

  function Global(db: Db, sort: Sort, decay: Decay): seq<Ranked<Listed>> {
    Candidates(db, db.posts, Everything(), sort, decay)
  }

  /** The query fetches no row exactly when nothing matches below the cursor. */
  lemma FetchEmpty<T(!new)>(candidates: seq<Ranked<T>>, c: Option<Key>, n: nat)
    ensures |Fetch(candidates, c, n)| == 0 <==> |Below(candidates, c)| == 0
  {
  }

  /**
   * GET /feed. The personalized rows are fetched first; when none came
   * back and the request carried no (decodable) cursor, the first page of
   * the global feed is served instead.
   */
  function GetFeed(db: Db, me: Option<string>, sortRaw: Option<string>, limit: LimitInput,
                   cursor: Option<string>, decay: Decay, tt: TimeText): (r: Outcome<Paging.Response<Listed>>)
    ensures r.Fail? <==> me.None?
    ensures r.Fail? ==> r.err == Unauthenticated
    ensures r.Ok? ==>
      var sort := ParseSort(sortRaw, false);
      var n := ParseLimit(limit, DefaultLimits);
      var c := CursorKey(DecodeCursor(cursor), tt);
      var personal := Personal(db, me.value, sort, decay);
      var fallback := DecodeCursor(cursor).None? && |personal| == 0;
      && sort != Rising
      && |r.value.items| <= n
      && Sorted(r.value.items)
      && (forall i :: 0 <= i < |r.value.items| ==>
            var p := r.value.items[i].row.post;
            && p in db.posts && !p.deleted && Join(db, p) == Some(r.value.items[i].row)
            && r.value.items[i].key == Key(p.createdAt, p.id)
            && BelowCursor(r.value.items[i].key, c)
            && (!fallback ==> FeedScope(db, me.value)(p)))
      && (!fallback ==> (r.value.nextCursor.Some? <==> |Below(personal, c)| > n))
      && (fallback ==> (r.value.nextCursor.Some? <==> |Global(db, sort, decay)| > n))
      && (r.value.nextCursor.Some? ==> |r.value.items| == n)
      && (!fallback ==> r.value.items == List(personal, c, n).items)
      && (fallback ==> r.value.items == List(Global(db, sort, decay), None, n).items)
  {
    if me.None? then Fail(Unauthenticated)
    else
      var sort := ParseSort(sortRaw, false);
      var n := Paging.LimitOf(limit, DefaultLimits);
      var decoded := DecodeCursor(cursor);
      var c := CursorKey(decoded, tt);
      var personal := Personal(db, me.value, sort, decay);
      var rows := Fetch(personal, c, n);
      FetchEmpty(personal, c, n);
      BelowNoneIsAll(personal);
      var global := Global(db, sort, decay);
      BelowNoneIsAll(global);
      var fallback := |rows| == 0 && decoded.None?;
      var list := if fallback then Fetch(global, None, n) else rows;
      PageIsOrderedPrefix(personal, c, n);
      PageIsOrderedPrefix(global, None, n);
      Ok(Paging.Respond(Slice(list, n), tt))
  }

  /** A feed page's `next_cursor` leads back to the key of its last row. */
  lemma FeedCursorLeadsBack(db: Db, me: string, sortRaw: Option<string>, limit: LimitInput,
                            cursor: Option<string>, decay: Decay, tt: TimeText)
    requires RoundTrips(tt)
    ensures var r := GetFeed(db, Some(me), sortRaw, limit, cursor, decay, tt);
      r.value.nextCursor.Some? ==>
        |r.value.items| > 0 && CursorKey(DecodeCursor(r.value.nextCursor), tt) == Some(r.value.items[|r.value.items| - 1].key)
  {
    var sort := ParseSort(sortRaw, false);
    var n := Paging.LimitOf(limit, DefaultLimits);
    var c := CursorKey(DecodeCursor(cursor), tt);
    var personal := Personal(db, me, sort, decay);
    var fallback := |Fetch(personal, c, n)| == 0 && DecodeCursor(cursor).None?;
    var page := if fallback then List(Global(db, sort, decay), None, n) else List(personal, c, n);
    assert GetFeed(db, Some(me), sortRaw, limit, cursor, decay, tt) == Ok(Paging.Respond(page, tt));
  }

  /** The fall back happens exactly when nothing is in scope and no cursor was given. */
  lemma FallbackCondition(db: Db, me: string, sortRaw: Option<string>, limit: LimitInput,
                          cursor: Option<string>, decay: Decay, tt: TimeText)
    ensures var sort := ParseSort(sortRaw, false);
      var r := GetFeed(db, Some(me), sortRaw, limit, cursor, decay, tt);
      var n := ParseLimit(limit, DefaultLimits);
      (DecodeCursor(cursor).None? && |Personal(db, me, sort, decay)| == 0) ==>
        r.value.items == List(Global(db, sort, decay), None, n).items
  {
  }

  /**
   * Outside the fall back, a page holds exactly the first `limit` posts in
   * scope below the cursor, in listing order: none is left out for a later
   * one.
   */
  lemma PersonalPage(db: Db, me: string, sortRaw: Option<string>, limit: LimitInput,
                     cursor: Option<string>, decay: Decay, tt: TimeText)
    requires DecodeCursor(cursor).Some? || |Personal(db, me, ParseSort(sortRaw, false), decay)| > 0
    ensures var r := GetFeed(db, Some(me), sortRaw, limit, cursor, decay, tt);
      var m := Listing.Sort(Below(Personal(db, me, ParseSort(sortRaw, false), decay), CursorKey(DecodeCursor(cursor), tt)));
      var n := ParseLimit(limit, DefaultLimits);
      r.value.items == (if |m| <= n then m else m[..n])
  {
    var personal := Personal(db, me, ParseSort(sortRaw, false), decay);
    ListIsPrefix(personal, CursorKey(DecodeCursor(cursor), tt), Paging.LimitOf(limit, DefaultLimits));
  }

  /**
   * For an agent with something in scope, sending back a `next_cursor`
   * asks for the personal page below the key it was made from, so a
   * client following the cursors takes the steps of `Listing.Walk` over
   * the personal feed.
   */
  lemma FeedFollowsCursor(db: Db, me: string, sortRaw: Option<string>, limit: LimitInput,
                          next: Option<Key>, decay: Decay, tt: TimeText)
    requires RoundTrips(tt)
    requires |Personal(db, me, ParseSort(sortRaw, false), decay)| > 0
    ensures var r := GetFeed(db, Some(me), sortRaw, limit, NextCursor(next, tt), decay, tt);
      var p := List(Personal(db, me, ParseSort(sortRaw, false), decay), next, ParseLimit(limit, DefaultLimits));
      r.value.items == p.items && (r.value.nextCursor.Some? <==> p.next.Some?)
  {
    NextCursorRoundTrip(next, tt);
  }

  /** With a cursor and nothing in scope below it the page is empty and ends the feed. */
  lemma PastTheEnd(db: Db, me: string, sortRaw: Option<string>, limit: LimitInput,
                   cursor: Option<string>, decay: Decay, tt: TimeText)
    requires DecodeCursor(cursor).Some?
    requires |Below(Personal(db, me, ParseSort(sortRaw, false), decay), CursorKey(DecodeCursor(cursor), tt))| == 0
    ensures var r := GetFeed(db, Some(me), sortRaw, limit, cursor, decay, tt);
      r.value.items == [] && r.value.nextCursor.None?
  {
    var n := Paging.LimitOf(limit, DefaultLimits);
  }

  /**
   * The global fall back cannot be paged: for an agent with nothing in
   * scope, the first page hands out a next cursor whenever more than a
   * page of posts exists, and the request with that cursor is served from
   * the (empty) personalized query, so it comes back empty and the rest of
   * the global feed is never shown.
   */
  lemma FallbackStopsAfterFirstPage(db: Db, me: string, sortRaw: Option<string>, limit: LimitInput, decay: Decay, tt: TimeText)
    requires RoundTrips(tt)
    requires |Personal(db, me, ParseSort(sortRaw, false), decay)| == 0
    requires |Global(db, ParseSort(sortRaw, false), decay)| > ParseLimit(limit, DefaultLimits)
    ensures var first := GetFeed(db, Some(me), sortRaw, limit, None, decay, tt);
      var second := GetFeed(db, Some(me), sortRaw, limit, first.value.nextCursor, decay, tt);
      && first.value.nextCursor.Some?
      && |first.value.items| == ParseLimit(limit, DefaultLimits)
      && second.value.items == [] && second.value.nextCursor.None?
  {
    var first := GetFeed(db, Some(me), sortRaw, limit, None, decay, tt);
    FallbackFirstPage(db, me, sortRaw, limit, decay, tt);
    PastTheEnd(db, me, sortRaw, limit, first.value.nextCursor, decay, tt);
  }

  /** The first page of the fall back is a full page of the global feed with a cursor to go on. */
  lemma FallbackFirstPage(db: Db, me: string, sortRaw: Option<string>, limit: LimitInput, decay: Decay, tt: TimeText)
    requires RoundTrips(tt)
    requires |Personal(db, me, ParseSort(sortRaw, false), decay)| == 0
    requires |Global(db, ParseSort(sortRaw, false), decay)| > ParseLimit(limit, DefaultLimits)
    ensures var first := GetFeed(db, Some(me), sortRaw, limit, None, decay, tt);
      && first.Ok?
      && first.value.nextCursor.Some?
      && |first.value.items| == ParseLimit(limit, DefaultLimits)
  {
    var first := GetFeed(db, Some(me), sortRaw, limit, None, decay, tt);
    assert DecodeCursor(None).None?;
  }

  // --------------------------------------------------- the corrected fall back

  /**
   * The fall back as the code guards it: the global feed stands in for an
   * empty personal feed on the first request only (feed.ts:79), so its
   * page is the whole answer and carries no `next_cursor`. Every other
   * answer is the original's.
   */
  function GetFeedIntended(db: Db, me: Option<string>, sortRaw: Option<string>, limit: LimitInput,
                           cursor: Option<string>, decay: Decay, tt: TimeText): (r: Outcome<Paging.Response<Listed>>)
    ensures r.Fail? <==> me.None?
    ensures r.Fail? ==> r.err == Unauthenticated
    ensures r.Ok? ==>
      var sort := ParseSort(sortRaw, false);
      var fallback := DecodeCursor(cursor).None? && |Personal(db, me.value, sort, decay)| == 0;
      && (fallback ==> r.value.items == List(Global(db, sort, decay), None, ParseLimit(limit, DefaultLimits)).items
                       && r.value.nextCursor.None?)
      && (!fallback ==> r == GetFeed(db, me, sortRaw, limit, cursor, decay, tt))
  {
    var g := GetFeed(db, me, sortRaw, limit, cursor, decay, tt);
    if me.None? then g
    else if DecodeCursor(cursor).None? && |Personal(db, me.value, ParseSort(sortRaw, false), decay)| == 0 then
      Ok(g.value.(nextCursor := None))
    else g
  }

  /** Both feeds show the same posts on every request; they differ only in the fall back's cursor. */
  lemma IntendedSamePosts(db: Db, me: Option<string>, sortRaw: Option<string>, limit: LimitInput,
                          cursor: Option<string>, decay: Decay, tt: TimeText)
    ensures var a := GetFeed(db, me, sortRaw, limit, cursor, decay, tt);
      var b := GetFeedIntended(db, me, sortRaw, limit, cursor, decay, tt);
      && (a.Fail? <==> b.Fail?)
      && (a.Ok? ==> b.value.items == a.value.items)
  {
  }

  /**
   * Every `next_cursor` the corrected feed hands out continues the
   * personal feed it came from: it is only ever handed out with a full
   * personal page, and sending it back serves the personal page below the
   * last row shown.
   */
  lemma IntendedCursorsContinue(db: Db, me: string, sortRaw: Option<string>, limit: LimitInput,
                                cursor: Option<string>, decay: Decay, tt: TimeText)
    requires RoundTrips(tt)
    ensures var r := GetFeedIntended(db, Some(me), sortRaw, limit, cursor, decay, tt);
      var personal := Personal(db, me, ParseSort(sortRaw, false), decay);
      var n := ParseLimit(limit, DefaultLimits);
      r.value.nextCursor.Some? ==>
        && |personal| > 0
        && |r.value.items| == n > 0
        && GetFeedIntended(db, Some(me), sortRaw, limit, r.value.nextCursor, decay, tt).value.items
             == List(personal, Some(r.value.items[n - 1].key), n).items
  {
    var r := GetFeedIntended(db, Some(me), sortRaw, limit, cursor, decay, tt);
    if r.value.nextCursor.Some? {
      IntendedCursorPage(db, me, sortRaw, limit, cursor, decay, tt);
      ContinuedPage(db, me, sortRaw, limit, r.value.nextCursor, r.value.items[|r.value.items| - 1].key, decay, tt);
    }
  }

  /** A corrected page with a `next_cursor` is a full page of a non-empty personal feed, and the cursor stands for its last key. */
  lemma IntendedCursorPage(db: Db, me: string, sortRaw: Option<string>, limit: LimitInput,
                           cursor: Option<string>, decay: Decay, tt: TimeText)
    requires RoundTrips(tt)
    requires GetFeedIntended(db, Some(me), sortRaw, limit, cursor, decay, tt).value.nextCursor.Some?
    ensures var r := GetFeedIntended(db, Some(me), sortRaw, limit, cursor, decay, tt);
      && |Personal(db, me, ParseSort(sortRaw, false), decay)| > 0
      && |r.value.items| == ParseLimit(limit, DefaultLimits) > 0
      && CursorKey(DecodeCursor(r.value.nextCursor), tt) == Some(r.value.items[|r.value.items| - 1].key)
  {
    var personal := Personal(db, me, ParseSort(sortRaw, false), decay);
    var n := Paging.LimitOf(limit, DefaultLimits);
    var c := CursorKey(DecodeCursor(cursor), tt);
    assert |Below(personal, c)| > n;
    assert Below(personal, c)[0] in personal;
    FeedCursorLeadsBack(db, me, sortRaw, limit, cursor, decay, tt);
  }

  /** A request whose cursor stands for key `k` gets the personal page below `k`. */
  lemma ContinuedPage(db: Db, me: string, sortRaw: Option<string>, limit: LimitInput,
                      cursor: Option<string>, k: Key, decay: Decay, tt: TimeText)
    requires CursorKey(DecodeCursor(cursor), tt) == Some(k)
    ensures GetFeedIntended(db, Some(me), sortRaw, limit, cursor, decay, tt).value.items
      == List(Personal(db, me, ParseSort(sortRaw, false), decay), Some(k), ParseLimit(limit, DefaultLimits)).items
  {
    assert DecodeCursor(cursor).Some?;
  }

  /**
   * For an agent with nothing in scope the corrected fall back shows the
   * first page of the global feed and ends there: no cursor is handed out
   * that would lead to an empty page.
   */
  lemma IntendedFallbackEnds(db: Db, me: string, sortRaw: Option<string>, limit: LimitInput, decay: Decay, tt: TimeText)
    requires |Personal(db, me, ParseSort(sortRaw, false), decay)| == 0
    ensures var r := GetFeedIntended(db, Some(me), sortRaw, limit, None, decay, tt);
      var n := ParseLimit(limit, DefaultLimits);
      var g := Global(db, ParseSort(sortRaw, false), decay);
      && r.value.items == List(g, None, n).items
      && |r.value.items| == (if |g| < n then |g| else n)
      && r.value.nextCursor.None?
  {
    var g := Global(db, ParseSort(sortRaw, false), decay);
    var n := Paging.LimitOf(limit, DefaultLimits);
    assert DecodeCursor(None).None?;
    BelowNoneIsAll(g);
    ListIsPrefix(g, None, n);
  }
}
