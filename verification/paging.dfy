/**
 * The tail every paged list handler shares: read `limit` and `cursor`
 * from the query, fetch `limit + 1` ordered rows below the cursor, return
 * the first `limit` and encode the last returned row as `next_cursor`.
 */
module Paging {
  import opened Wrappers
  import opened Ordering
  import opened Listing
  import opened Pagination

  /** A list response: the returned rows and `next_cursor` (null at the end). */
  datatype Response<T> = Response(items: seq<Ranked<T>>, nextCursor: Option<string>)

  /** The bounds of every paged endpoint put the smallest limit at 1 or more. */
  predicate SaneLimits(o: LimitOptions) {
    0 < o.min <= o.max && 0 < o.def
  }

  /** The limit a request ends up with. */
  function LimitOf(raw: LimitInput, o: LimitOptions): (n: nat)
    requires SaneLimits(o)
    ensures n > 0
    ensures n == ParseLimit(raw, o)
  {
    LimitInBounds(raw, o);
    ParseLimit(raw, o)
  }

  /** The response built from an already sliced page. */
  function Respond<T>(p: Page<T>, tt: TimeText): (r: Response<T>)
    ensures r.items == p.items
    ensures r.nextCursor.Some? <==> p.next.Some?
    ensures RoundTrips(tt) ==> CursorKey(DecodeCursor(r.nextCursor), tt) == p.next
  {
    NextCursorRoundTrip(p.next, tt);
    Response(p.items, NextCursor(p.next, tt))
  }

  /**
   * One page of `candidates` (already filtered and ranked): at most `limit`
   * rows, all strictly below the decoded cursor, ordered; a next cursor
   * exactly when more than `limit` rows matched, leading back to the key
   * of the last returned row.
   */
  function Serve<T(!new)>(candidates: seq<Ranked<T>>, cursor: Option<string>, limit: LimitInput, o: LimitOptions, tt: TimeText): (r: Response<T>)
    requires SaneLimits(o)
    ensures var n := LimitOf(limit, o);
      var c := CursorKey(DecodeCursor(cursor), tt);
      && |r.items| <= n
      && (forall i :: 0 <= i < |r.items| ==> r.items[i] in candidates && BelowCursor(r.items[i].key, c))
      && Sorted(r.items)
      && (r.nextCursor.Some? <==> |Below(candidates, c)| > n)
      && (r.nextCursor.Some? ==> |r.items| == n)
      && (r.nextCursor.None? ==> forall x :: x in Below(candidates, c) ==> x in r.items)
      && (RoundTrips(tt) && r.nextCursor.Some? ==>
            CursorKey(DecodeCursor(r.nextCursor), tt) == Some(r.items[|r.items| - 1].key))
      && r.items == List(candidates, c, n).items
  {
    var n := LimitOf(limit, o);
    var c := CursorKey(DecodeCursor(cursor), tt);
    PageIsOrderedPrefix(candidates, c, n);
    ListIsPrefix(candidates, c, n);
    Respond(List(candidates, c, n), tt)
  }

  /**
   * Sending back the `next_cursor` of a response asks for the page below
   * the key it was made from, so a client following the cursors takes the
   * steps of `Listing.Walk`.
   */
  lemma ServeFollowsCursor<T(!new)>(candidates: seq<Ranked<T>>, next: Option<Key>, limit: LimitInput, o: LimitOptions, tt: TimeText)
    requires SaneLimits(o) && RoundTrips(tt)
    ensures var r := Serve(candidates, NextCursor(next, tt), limit, o, tt);
      var p := List(candidates, next, LimitOf(limit, o));
      r.items == p.items && (r.nextCursor.Some? <==> p.next.Some?)
  {
    NextCursorRoundTrip(next, tt);
  }
}
