/**
 * The submolt routes (apps/api/src/routes/v1/submolts.ts): create, list
 * and read communities, subscribe to and unsubscribe from them, and page
 * through one community's posts.
 */
module Submolts {
  import opened Wrappers
  import opened Json
  import opened Http
  import opened Ordering
  import opened Listing
  import opened Pagination
  import opened Schema
  import opened PostQuery
  import Paging
  import Shared
  import opened Sorting

  // ------------------------------------------------------------ POST /submolts

  /**
   * POST /submolts by agent `me` with generated id `id`. The name is a
   * unique key of the table, so a taken name is the driver's duplicate-key
   * error, reported as 409.
   */
  function CreateSubmolt(db: Db, me: Option<string>, body: Json, id: string): (r: Run<()>)
    ensures r.result.Ok? <==>
      me.Some? && Shared.ParseSubmolt(body).Some? && SubmoltByName(db, Shared.ParseSubmolt(body).value.name).None?
    ensures r.result.Fail? ==> r.db == db
    ensures me.None? ==> r.result == Fail(Unauthenticated)
    ensures me.Some? && Shared.ParseSubmolt(body).None? ==> r.result == Fail(Shared.InvalidBody)
    ensures me.Some? && Shared.ParseSubmolt(body).Some? && SubmoltByName(db, Shared.ParseSubmolt(body).value.name).Some? ==>
      r.result == Fail(AlreadyExists)
    ensures r.result.Ok? ==>
      var b := Shared.ParseSubmolt(body).value;
      && r.db == db.(submolts := db.submolts + [Submolt(id, b.name, b.displayName, b.description, me.value)])
      && SubmoltByName(r.db, b.name) == Some(Submolt(id, b.name, b.displayName, b.description, me.value))
  {
    if me.None? then Reject(db, Unauthenticated)
    else match Shared.ParseSubmolt(body)
      case None => Reject(db, Shared.InvalidBody)
      case Some(b) =>
        if SubmoltByName(db, b.name).Some? then Reject(db, AlreadyExists)
        else
          var s := Submolt(id, b.name, b.displayName, b.description, me.value);
          var r := Run(db.(submolts := db.submolts + [s]), Ok(()));
          FindAppend(db.submolts, s, (x: Submolt) => x.name == b.name);
          r
  }

  // ------------------------------------------------------------- GET /submolts

  /** `ORDER BY name ASC`: `x` may come before `y`. */
  function NameLe(): (Submolt, Submolt) -> bool {
    (x: Submolt, y: Submolt) => !StrLt(y.name, x.name)
  }

  lemma NameOrder()
    ensures TotalPreorder(NameLe())
  {
    forall x: Submolt, y: Submolt ensures NameLe()(x, y) || NameLe()(y, x) {
      StrLtTotal(x.name, y.name);
      if x.name != y.name && StrLt(x.name, y.name) { StrLtAsymmetric(x.name, y.name); }
      if x.name == y.name { StrLtIrreflexive(x.name); }
    }
    forall x: Submolt, y: Submolt, z: Submolt | NameLe()(x, y) && NameLe()(y, z) ensures NameLe()(x, z) {
      NotStrLtTransitive(x.name, y.name, z.name);
    }
  }

  /** `a` not after `b` and `b` not after `c` put `a` not after `c`. */
  lemma NotStrLtTransitive(a: string, b: string, c: string)
    requires !StrLt(b, a) && !StrLt(c, b)
    ensures !StrLt(c, a)
  {
    StrLtTotal(a, b);
    StrLtTotal(b, c);
    if a != b && b != c {
      StrLtTransitive(a, b, c);
      StrLtAsymmetric(a, c);
    } else if a != b {
      StrLtAsymmetric(a, c);
    } else if b != c {
      StrLtAsymmetric(a, c);
    } else {
      StrLtIrreflexive(a);
    }
  }

  /**
   * GET /submolts: for an authenticated caller, every submolt, each once,
   * ordered by name. (Names are compared character by character; the
   * database collation is not modelled.)
   */
  function ListSubmolts(db: Db, me: Option<string>): (r: Outcome<seq<Submolt>>)
    ensures r.Fail? <==> me.None?
    ensures r.Fail? ==> r.err == Unauthenticated
    ensures r.Ok? ==> forall i, j :: 0 <= i < j < |r.value| ==> !StrLt(r.value[j].name, r.value[i].name)
    ensures r.Ok? ==> multiset(r.value) == multiset(db.submolts)
  {
    if me.None? then Fail(Unauthenticated)
    else
      NameOrder();
      Ok(SortBy(db.submolts, NameLe()))
  }

  /** A table already in name order is listed as it is. */
  lemma ListingOrderedRowsKeepsThem(db: Db, me: string)
    requires forall i, j :: 0 <= i < j < |db.submolts| ==> !StrLt(db.submolts[j].name, db.submolts[i].name)
    ensures ListSubmolts(db, Some(me)) == Ok(db.submolts)
  {
    NameOrder();
    SortBySortedIsIdentity(db.submolts, NameLe());
  }

  // ------------------------------------------------------- GET /submolts/:name

  /** GET /submolts/:name: for an authenticated caller, the submolt with that name. */
  function GetSubmolt(db: Db, me: Option<string>, name: string): (r: Outcome<Submolt>)
    ensures r.Ok? <==> me.Some? && exists s :: s in db.submolts && s.name == name
    ensures r.Ok? ==> r.value in db.submolts && r.value.name == name
    ensures r.Fail? ==> r.err == if me.None? then Unauthenticated else SubmoltNotFound
  {
    if me.None? then Fail(Unauthenticated)
    else match SubmoltByName(db, name)
      case Some(s) => Ok(s)
      case None =>
        assert forall s :: s in db.submolts ==> s.name != name by {
          forall s | s in db.submolts ensures s.name != name {
            var i :| 0 <= i < |db.submolts| && db.submolts[i] == s;
          }
        }
        Fail(SubmoltNotFound)
  }

  // -------------------------------------------- POST/DELETE /submolts/:name/subscribe

  /** POST /submolts/:name/subscribe: `INSERT IGNORE`, so a repeat changes nothing. */
  function Subscribe(db: Db, me: Option<string>, name: string): (r: Run<()>)
    ensures r.result.Ok? <==> me.Some? && SubmoltByName(db, name).Some?
    ensures me.None? ==> r.result == Fail(Unauthenticated)
    ensures me.Some? && SubmoltByName(db, name).None? ==> r.result == Fail(SubmoltNotFound)
    ensures r.result.Fail? ==> r.db == db
    ensures r.result.Ok? ==>
      var sid := SubmoltByName(db, name).value.id;
      && r.db == db.(subscriptions := r.db.subscriptions)
      && (me.value, sid) in r.db.subscriptions
      && r.db.subscriptions - {(me.value, sid)} == db.subscriptions - {(me.value, sid)}
  {
    if me.None? then Reject(db, Unauthenticated)
    else match SubmoltByName(db, name)
      case None => Reject(db, SubmoltNotFound)
      case Some(sub) => Run(db.(subscriptions := db.subscriptions + {(me.value, sub.id)}), Ok(()))
  }

  /** DELETE /submolts/:name/subscribe: removes the membership, present or not. */
  function Unsubscribe(db: Db, me: Option<string>, name: string): (r: Run<()>)
    ensures r.result.Ok? <==> me.Some? && SubmoltByName(db, name).Some?
    ensures me.None? ==> r.result == Fail(Unauthenticated)
    ensures me.Some? && SubmoltByName(db, name).None? ==> r.result == Fail(SubmoltNotFound)
    ensures r.result.Fail? ==> r.db == db
    ensures r.result.Ok? ==>
      var sid := SubmoltByName(db, name).value.id;
      && r.db == db.(subscriptions := r.db.subscriptions)
      && (me.value, sid) !in r.db.subscriptions
      && r.db.subscriptions - {(me.value, sid)} == db.subscriptions - {(me.value, sid)}
  {
    if me.None? then Reject(db, Unauthenticated)
    else match SubmoltByName(db, name)
      case None => Reject(db, SubmoltNotFound)
      case Some(sub) => Run(db.(subscriptions := db.subscriptions - {(me.value, sub.id)}), Ok(()))
  }

  /** Subscribing twice leaves the same rows as subscribing once. */
  lemma SubscribeIdempotent(db: Db, me: string, name: string)
    ensures var once := Subscribe(db, Some(me), name);
      Subscribe(once.db, Some(me), name) == once
  {
  }

  /** Unsubscribing undoes a subscription that did not exist before. */
  lemma UnsubscribeUndoesSubscribe(db: Db, me: string, name: string)
    requires SubmoltByName(db, name).Some?
    requires (me, SubmoltByName(db, name).value.id) !in db.subscriptions
    ensures Unsubscribe(Subscribe(db, Some(me), name).db, Some(me), name).db == db
  {
    var sid := SubmoltByName(db, name).value.id;
    assert db.subscriptions + {(me, sid)} - {(me, sid)} == db.subscriptions;
  }

  // ---------------------------------------------------- GET /submolts/:name/feed

  /** The posts of submolt `sid`. */
  function InSubmoltId(sid: string): Post -> bool {
    (p: Post) => p.submoltId == sid
  }

  function FeedCandidates(db: Db, sid: string, sortRaw: Option<string>, decay: Decay): seq<Ranked<Listed>> {
    Candidates(db, db.posts, InSubmoltId(sid), ParseSort(sortRaw, true), decay)
  }

  /**
   * GET /submolts/:name/feed: 401 without a valid key, 404 for an unknown
   * name; otherwise one page of the submolt's live posts, at most `limit`
   * of them, strictly below the cursor, ordered, with a next cursor exactly
   * when more matched that leads back to the last returned row, and every
   * matching post below the cursor on the page when there is none.
   */
  function SubmoltFeed(db: Db, me: Option<string>, name: string, sortRaw: Option<string>, limit: LimitInput,
                       cursor: Option<string>, decay: Decay, tt: TimeText): (r: Outcome<Paging.Response<Listed>>)
    ensures r.Fail? <==> me.None? || SubmoltByName(db, name).None?
    ensures r.Fail? ==> r.err == if me.None? then Unauthenticated else SubmoltNotFound
    ensures r.Ok? ==>
      var sid := SubmoltByName(db, name).value.id;
      var n := ParseLimit(limit, DefaultLimits);
      var c := CursorKey(DecodeCursor(cursor), tt);
      && |r.value.items| <= n
      && Sorted(r.value.items)
      && (forall i :: 0 <= i < |r.value.items| ==>
            var p := r.value.items[i].row.post;
            && p in db.posts && !p.deleted && p.submoltId == sid
            && r.value.items[i].key == Key(p.createdAt, p.id)
            && BelowCursor(r.value.items[i].key, c))
      && (r.value.nextCursor.Some? <==> |Below(FeedCandidates(db, sid, sortRaw, decay), c)| > n)
      && (r.value.nextCursor.Some? ==> |r.value.items| == n)
      && (RoundTrips(tt) && r.value.nextCursor.Some? ==>
            |r.value.items| > 0 && CursorKey(DecodeCursor(r.value.nextCursor), tt) == Some(r.value.items[|r.value.items| - 1].key))
      && (r.value.nextCursor.None? ==> forall p ::
            p in db.posts && Qualifies(db, p, InSubmoltId(sid)) && BelowCursor(Key(p.createdAt, p.id), c) ==>
              RankedPost(db, p, ParseSort(sortRaw, true), decay) in r.value.items)
  {
    if me.None? then Fail(Unauthenticated)
    else if SubmoltByName(db, name).None? then Fail(SubmoltNotFound)
    else
      var sid := SubmoltByName(db, name).value.id;
      FeedPage(db, sid, sortRaw, limit, cursor, decay, tt);
      Ok(Paging.Serve(FeedCandidates(db, sid, sortRaw, decay), cursor, limit, DefaultLimits, tt))
  }

  /** The page served from the feed's candidates holds live posts of the submolt, keyed by their own time and id. */
  lemma FeedPage(db: Db, sid: string, sortRaw: Option<string>, limit: LimitInput,
                 cursor: Option<string>, decay: Decay, tt: TimeText)
    ensures var all := FeedCandidates(db, sid, sortRaw, decay);
      var page := Paging.Serve(all, cursor, limit, DefaultLimits, tt);
      && (forall i :: 0 <= i < |page.items| ==>
            var p := page.items[i].row.post;
            p in db.posts && !p.deleted && p.submoltId == sid && page.items[i].key == Key(p.createdAt, p.id))
      && (page.nextCursor.None? ==> forall p ::
            p in db.posts && Qualifies(db, p, InSubmoltId(sid)) && BelowCursor(Key(p.createdAt, p.id), CursorKey(DecodeCursor(cursor), tt)) ==>
              RankedPost(db, p, ParseSort(sortRaw, true), decay) in page.items)
  {
    FeedPageRows(db, sid, sortRaw, limit, cursor, decay, tt);
    FeedPageComplete(db, sid, sortRaw, limit, cursor, decay, tt);
  }

  lemma FeedPageRows(db: Db, sid: string, sortRaw: Option<string>, limit: LimitInput,
                     cursor: Option<string>, decay: Decay, tt: TimeText)
    ensures var page := Paging.Serve(FeedCandidates(db, sid, sortRaw, decay), cursor, limit, DefaultLimits, tt);
      forall i :: 0 <= i < |page.items| ==>
        var p := page.items[i].row.post;
        p in db.posts && !p.deleted && p.submoltId == sid && page.items[i].key == Key(p.createdAt, p.id)
  {
    var all := FeedCandidates(db, sid, sortRaw, decay);
    var page := Paging.Serve(all, cursor, limit, DefaultLimits, tt);
    assert forall i :: 0 <= i < |page.items| ==> page.items[i] in all;
  }

  lemma FeedPageComplete(db: Db, sid: string, sortRaw: Option<string>, limit: LimitInput,
                         cursor: Option<string>, decay: Decay, tt: TimeText)
    ensures var page := Paging.Serve(FeedCandidates(db, sid, sortRaw, decay), cursor, limit, DefaultLimits, tt);
      page.nextCursor.None? ==> forall p ::
        p in db.posts && Qualifies(db, p, InSubmoltId(sid)) && BelowCursor(Key(p.createdAt, p.id), CursorKey(DecodeCursor(cursor), tt)) ==>
          RankedPost(db, p, ParseSort(sortRaw, true), decay) in page.items
  {
    var all := FeedCandidates(db, sid, sortRaw, decay);
    var page := Paging.Serve(all, cursor, limit, DefaultLimits, tt);
    if page.nextCursor.None? {
      var c := CursorKey(DecodeCursor(cursor), tt);
      forall p | p in db.posts && Qualifies(db, p, InSubmoltId(sid)) && BelowCursor(Key(p.createdAt, p.id), c)
        ensures RankedPost(db, p, ParseSort(sortRaw, true), decay) in page.items
      {
        assert RankedPost(db, p, ParseSort(sortRaw, true), decay) in Below(all, c);
      }
    }
  }

  /**
   * Sending back the submolt feed's `next_cursor` asks for the page below
   * the key it was made from, so a client following the cursors takes the
   * steps of `Listing.Walk` over the submolt's posts.
   */
  lemma SubmoltFeedFollowsCursor(db: Db, me: string, name: string, sortRaw: Option<string>, limit: LimitInput,
                                 next: Option<Key>, decay: Decay, tt: TimeText)
    requires RoundTrips(tt) && SubmoltByName(db, name).Some?
    ensures var r := SubmoltFeed(db, Some(me), name, sortRaw, limit, NextCursor(next, tt), decay, tt);
      var p := List(FeedCandidates(db, SubmoltByName(db, name).value.id, sortRaw, decay), next, ParseLimit(limit, DefaultLimits));
      r.value.items == p.items && (r.value.nextCursor.Some? <==> p.next.Some?)
  {
    Paging.ServeFollowsCursor(FeedCandidates(db, SubmoltByName(db, name).value.id, sortRaw, decay), next, limit, DefaultLimits, tt);
  }

  /**
   * Under sort "new", with unique post ids, following the submolt feed's
   * cursors from the start shows every live post of the submolt exactly
   * once, newest first.
   */
  lemma SubmoltFeedNewestIsComplete(db: Db, sid: string, decay: Decay, limit: nat)
    requires limit > 0 && UniquePostIds(db)
    ensures var all := FeedCandidates(db, sid, Some("new"), decay);
      var w := Walk(all, None, limit);
      && (forall p :: p in db.posts && !p.deleted && p.submoltId == sid && Join(db, p).Some? ==>
            RankedPost(db, p, New, decay) in w)
      && (forall x :: x in w ==> x.row.post in db.posts && !x.row.post.deleted && x.row.post.submoltId == sid)
      && multiset(w) == multiset(all)
      && KeysDescending(w)
  {
    var all := FeedCandidates(db, sid, Some("new"), decay);
    CandidatesDistinct(db, db.posts, InSubmoltId(sid), New, decay);
    WalkFromStartIsComplete(all, limit);
  }
}
