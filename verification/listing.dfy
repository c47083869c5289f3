/**
 * The shape every list endpoint shares: filter the candidate rows, keep
 * those strictly below the cursor in (created_at, id), order them by
 * (rank DESC, created_at DESC, id DESC), fetch `limit + 1` rows, return the
 * first `limit` and build the next cursor from the last returned row.
 *
 * The rank is whatever the ORDER BY starts with: nothing (a constant) for
 * sort "new" and for direct messages, the score for "top", and the value of
 * the time-decay expression at query time for "hot" and "rising".
 */
module Listing {
  import opened Wrappers
  import opened Ordering

  /** A candidate row together with its sort rank and listing key. */
  datatype Ranked<T> = Ranked(rank: real, key: Key, row: T)

  /** `x` is listed before `y`: rank DESC, then created_at DESC, then id DESC. */
  predicate Before<T>(x: Ranked<T>, y: Ranked<T>) {
    x.rank > y.rank || (x.rank == y.rank && KeyLt(y.key, x.key))
  }

  /** No element is listed before an element that precedes it. */
  predicate Sorted<T>(s: seq<Ranked<T>>) {
    forall i, j :: 0 <= i < j < |s| ==> !Before(s[j], s[i])
  }

  /** Every element is listed strictly before every later one. */
  predicate StrictlySorted<T>(s: seq<Ranked<T>>) {
    forall i, j :: 0 <= i < j < |s| ==> Before(s[i], s[j])
  }

  /** Strictly decreasing in (created_at, id). */
  predicate KeysDescending<T>(s: seq<Ranked<T>>) {
    forall i, j :: 0 <= i < j < |s| ==> KeyLt(s[j].key, s[i].key)
  }

  /** No two rows share a listing key (ids are primary keys). */
  predicate DistinctKeys<T>(s: seq<Ranked<T>>) {
    forall i, j :: 0 <= i < j < |s| ==> s[i].key != s[j].key
  }

  /** Every row has the same rank, as under sort "new". */
  predicate UniformRank<T>(s: seq<Ranked<T>>) {
    forall i, j :: 0 <= i < |s| && 0 <= j < |s| ==> s[i].rank == s[j].rank
  }

  lemma BeforeTransitive<T(!new)>(x: Ranked<T>, y: Ranked<T>, z: Ranked<T>)
    requires Before(x, y) && Before(y, z)
    ensures Before(x, z)
  {
    if x.rank == y.rank == z.rank {
      KeyLtTransitive(z.key, y.key, x.key);
    }
  }

  /** Not being listed before is transitive (the order is a strict weak order). */
  lemma NotBeforeTransitive<T(!new)>(x: Ranked<T>, y: Ranked<T>, z: Ranked<T>)
    requires !Before(x, y) && !Before(y, z)
    ensures !Before(x, z)
  {
    KeyLtTotal(x.key, y.key);
    KeyLtTotal(y.key, z.key);
    if Before(x, z) && x.rank == y.rank == z.rank {
      if y.key != x.key { KeyLtTransitive(z.key, x.key, y.key); }
      KeyLtAsymmetric(z.key, y.key);
    }
  }

  lemma BeforeAsymmetric<T(!new)>(x: Ranked<T>, y: Ranked<T>)
    requires Before(x, y)
    ensures !Before(y, x)
  {
    if x.rank == y.rank {
      KeyLtAsymmetric(y.key, x.key);
    }
  }

  // ---------------------------------------------------------------- sorting

  function Insert<T(!new)>(x: Ranked<T>, s: seq<Ranked<T>>): (r: seq<Ranked<T>>)
    ensures |r| == |s| + 1
    ensures multiset(r) == multiset(s) + multiset{x}
    ensures forall y :: y in r <==> y == x || y in s
  {
    if |s| == 0 then [x]
    else if Before(s[0], x) then
      assert s == [s[0]] + s[1..];
      [s[0]] + Insert(x, s[1..])
    else [x] + s
  }

  /** The order the database returns the matching rows in. */
  function Sort<T(!new)>(s: seq<Ranked<T>>): (r: seq<Ranked<T>>)
    ensures |r| == |s|
    ensures multiset(r) == multiset(s)
    ensures forall y :: y in r <==> y in s
  {
    if |s| == 0 then []
    else
      assert s == [s[0]] + s[1..];
      Insert(s[0], Sort(s[1..]))
  }

  lemma {:induction false} InsertSorted<T(!new)>(x: Ranked<T>, s: seq<Ranked<T>>)
    requires Sorted(s)
    ensures Sorted(Insert(x, s))
    decreases |s|
  {
    if |s| > 0 && Before(s[0], x) {
      InsertSorted(x, s[1..]);
      var r := Insert(x, s);
      forall i, j | 0 <= i < j < |r| ensures !Before(r[j], r[i]) {
        if i == 0 && !Before(r[j], r[0]) {
        } else if i == 0 {
          var y := r[j];
          assert y in Insert(x, s[1..]) by { assert r[j] == Insert(x, s[1..])[j - 1]; }
          if y == x {
            BeforeAsymmetric(s[0], x);
          }
        }
      }
    } else if |s| > 0 {
      var r := Insert(x, s);
      forall i, j | 0 <= i < j < |r| ensures !Before(r[j], r[i]) {
        if i == 0 {
          assert r[j] == s[j - 1];
          if j - 1 > 0 {
            assert !Before(s[j - 1], s[0]);
            NotBeforeTransitive(s[j - 1], s[0], x);
          }
        }
      }
    }
  }

  lemma {:induction false} SortSorted<T(!new)>(s: seq<Ranked<T>>)
    ensures Sorted(Sort(s))
    decreases |s|
  {
    if |s| > 0 {
      SortSorted(s[1..]);
      InsertSorted(s[0], Sort(s[1..]));
    }
  }

  /** With distinct keys the database order is strict: a total order on the rows. */
  lemma SortedDistinctIsStrict<T(!new)>(s: seq<Ranked<T>>)
    requires Sorted(s) && DistinctKeys(s)
    ensures StrictlySorted(s)
  {
    forall i, j | 0 <= i < j < |s| ensures Before(s[i], s[j]) {
      KeyLtTotal(s[i].key, s[j].key);
    }
  }

  lemma {:induction false} SortKeepsDistinctKeys<T(!new)>(s: seq<Ranked<T>>)
    requires DistinctKeys(s)
    ensures DistinctKeys(Sort(s))
    decreases |s|
  {
    if |s| > 0 {
      var t := Sort(s[1..]);
      SortKeepsDistinctKeys(s[1..]);
      InsertKeepsDistinctKeys(s[0], t);
    }
  }

  lemma {:induction false} InsertKeepsDistinctKeys<T(!new)>(x: Ranked<T>, s: seq<Ranked<T>>)
    requires DistinctKeys(s)
    requires forall y :: y in s ==> y.key != x.key
    ensures DistinctKeys(Insert(x, s))
    decreases |s|
  {
    if |s| > 0 && Before(s[0], x) {
      InsertKeepsDistinctKeys(x, s[1..]);
      var r := Insert(x, s);
      forall i, j | 0 <= i < j < |r| ensures r[i].key != r[j].key {
        if i == 0 {
          assert r[j] in Insert(x, s[1..]) by { assert r[j] == Insert(x, s[1..])[j - 1]; }
        }
      }
    } else if |s| > 0 {
      var r := Insert(x, s);
      forall i, j | 0 <= i < j < |r| ensures r[i].key != r[j].key {
        if i > 0 { assert r[i] == s[i - 1] && r[j] == s[j - 1]; }
        else { assert r[j] in s; }
      }
    }
  }

  /** Two strictly sorted sequences with the same elements are the same sequence. */
  lemma {:induction false} StrictlySortedUnique<T(!new)>(a: seq<Ranked<T>>, b: seq<Ranked<T>>)
    requires StrictlySorted(a) && StrictlySorted(b)
    requires forall y :: y in a <==> y in b
    ensures a == b
    decreases |a|
  {
    FirstIsMember(a);
    FirstIsMember(b);
    if |a| > 0 && |b| > 0 {
      if a[0] != b[0] {
        assert a[0] in b;
        var k :| 0 <= k < |b| && b[k] == a[0];
        assert Before(b[0], a[0]);
        assert b[0] in a;
        var m :| 0 <= m < |a| && a[m] == b[0];
        assert Before(a[0], b[0]);
        BeforeAsymmetric(a[0], b[0]);
      }
      forall y ensures y in a[1..] <==> y in b[1..] {
        if y in a[1..] {
          var i :| 0 <= i < |a[1..]| && a[1..][i] == y;
          assert Before(a[0], y);
          BeforeAsymmetric(a[0], y);
          assert y != a[0];
          assert y in b;
          var j :| 0 <= j < |b| && b[j] == y;
          assert j != 0;
          assert b[1..][j - 1] == y;
        }
        if y in b[1..] {
          var i :| 0 <= i < |b[1..]| && b[1..][i] == y;
          assert Before(b[0], y);
          BeforeAsymmetric(b[0], y);
          assert y != b[0];
          assert y in a;
          var j :| 0 <= j < |a| && a[j] == y;
          assert j != 0;
          assert a[1..][j - 1] == y;
        }
      }
      StrictlySortedUnique(a[1..], b[1..]);
      assert a == [a[0]] + a[1..] && b == [b[0]] + b[1..];
    }
  }

  lemma FirstIsMember<T>(s: seq<T>)
    ensures |s| > 0 ==> s[0] in s
  {
  }

  // --------------------------------------------------------------- the page

  /** The cursor predicate: created_at < c.created_at OR (= AND id < c.id). */
  predicate BelowCursor(k: Key, cursor: Option<Key>) {
    cursor.None? || KeyLt(k, cursor.value)
  }

  function Below<T(!new)>(s: seq<Ranked<T>>, cursor: Option<Key>): (r: seq<Ranked<T>>)
    ensures forall y :: y in r <==> y in s && BelowCursor(y.key, cursor)
    ensures |r| <= |s|
  {
    if |s| == 0 then []
    else
      assert s == [s[0]] + s[1..];
      (if BelowCursor(s[0].key, cursor) then [s[0]] else []) + Below(s[1..], cursor)
  }

  lemma {:induction false} BelowKeepsDistinctKeys<T(!new)>(s: seq<Ranked<T>>, cursor: Option<Key>)
    requires DistinctKeys(s)
    ensures DistinctKeys(Below(s, cursor))
    decreases |s|
  {
    if |s| > 0 {
      BelowKeepsDistinctKeys(s[1..], cursor);
      var r := Below(s, cursor);
      var rest := Below(s[1..], cursor);
      forall i, j | 0 <= i < j < |r| ensures r[i].key != r[j].key {
        if BelowCursor(s[0].key, cursor) && i == 0 {
          assert r[j] == rest[j - 1];
          assert r[j] in s[1..];
        } else if BelowCursor(s[0].key, cursor) {
          assert r[i] == rest[i - 1] && r[j] == rest[j - 1];
        }
      }
    }
  }

  /** One response: the returned rows and the next cursor (null at the end). */
  datatype Page<T> = Page(items: seq<Ranked<T>>, next: Option<Key>)

  /**
   * Slices the `limit + 1` fetched rows: the first `limit` are returned and,
   * when more than `limit` rows came back, the cursor is the key of row
   * `limit - 1` (JavaScript's `rows[limit - 1]`, undefined for limit 0).
   */
  function Slice<T>(fetched: seq<Ranked<T>>, limit: nat): (p: Page<T>)
    ensures |p.items| == if |fetched| < limit then |fetched| else limit
    ensures p.items == fetched[..|p.items|]
    ensures p.next.Some? <==> |fetched| > limit && limit > 0
    ensures p.next.Some? ==> p.next.value == p.items[|p.items| - 1].key
  {
    var n := if |fetched| < limit then |fetched| else limit;
    Page(fetched[..n], if |fetched| > limit && limit > 0 then Some(fetched[limit - 1].key) else None)
  }

  /** The rows the query fetches: the first `limit + 1` of the ordered matches. */
  function Fetch<T(!new)>(candidates: seq<Ranked<T>>, cursor: Option<Key>, limit: nat): seq<Ranked<T>>
  {
    var matched := Sort(Below(candidates, cursor));
    matched[..if |matched| < limit + 1 then |matched| else limit + 1]
  }

  /** One page of a listing. */
  function List<T(!new)>(candidates: seq<Ranked<T>>, cursor: Option<Key>, limit: nat): (p: Page<T>)
    ensures |p.items| <= limit
    ensures forall i :: 0 <= i < |p.items| ==> p.items[i] in candidates && BelowCursor(p.items[i].key, cursor)
    ensures limit > 0 ==> (p.next.Some? <==> |Below(candidates, cursor)| > limit)
    ensures p.next.Some? ==> limit > 0 && |p.items| == limit && p.next.value == p.items[limit - 1].key
  {
    Slice(Fetch(candidates, cursor, limit), limit)
  }

  /**
   * Per-page facts that hold under every sort: the page is ordered, and it
   * holds the best matching rows — no matching row left off the page is
   * listed before a row on it.
   */
  lemma PageIsOrderedPrefix<T(!new)>(candidates: seq<Ranked<T>>, cursor: Option<Key>, limit: nat)
    ensures Sorted(List(candidates, cursor, limit).items)
    ensures forall x, y ::
      (x in List(candidates, cursor, limit).items && y in Below(candidates, cursor)
       && y !in List(candidates, cursor, limit).items) ==> !Before(y, x)
  {
    var matched := Sort(Below(candidates, cursor));
    SortSorted(Below(candidates, cursor));
    var p := List(candidates, cursor, limit);
    assert p.items == matched[..|p.items|];
    forall x, y | x in p.items && y in Below(candidates, cursor) && y !in p.items ensures !Before(y, x) {
      var i :| 0 <= i < |p.items| && p.items[i] == x;
      assert y in matched;
      var j :| 0 <= j < |matched| && matched[j] == y;
      assert matched[i] == x;
    }
  }

  // ------------------------------------------------- following the cursors

  lemma {:induction false} BelowShrinks<T(!new)>(s: seq<Ranked<T>>, c: Option<Key>, k: Key, x: Ranked<T>)
    requires BelowCursor(k, c)
    requires x in s && x.key == k
    ensures |Below(s, Some(k))| < |Below(s, c)|
    decreases |s|
  {
    if s[0] == x {
      KeyLtIrreflexive(k);
      BelowNarrower(s[1..], c, k);
    } else {
      assert x in s[1..];
      BelowShrinks(s[1..], c, k, x);
      if BelowCursor(s[0].key, Some(k)) && c.Some? {
        KeyLtTransitive(s[0].key, k, c.value);
      }
    }
  }

  lemma {:induction false} BelowNarrower<T(!new)>(s: seq<Ranked<T>>, c: Option<Key>, k: Key)
    requires BelowCursor(k, c)
    ensures |Below(s, Some(k))| <= |Below(s, c)|
    decreases |s|
  {
    if |s| > 0 {
      BelowNarrower(s[1..], c, k);
      if BelowCursor(s[0].key, Some(k)) && c.Some? {
        KeyLtTransitive(s[0].key, k, c.value);
      }
    }
  }

  /**
   * Everything a client sees when it starts at `cursor` and keeps following
   * `next_cursor` until it is null, on an unchanging table.
   */
  function Walk<T(!new)>(candidates: seq<Ranked<T>>, cursor: Option<Key>, limit: nat): (r: seq<Ranked<T>>)
    requires limit > 0
    decreases |Below(candidates, cursor)|
  {
    var p := List(candidates, cursor, limit);
    if p.next.None? then p.items
    else
      BelowShrinks(candidates, cursor, p.next.value, p.items[limit - 1]);
      p.items + Walk(candidates, p.next, limit)
  }

  /**
   * With one rank for every row (sort "new", direct messages) and unique ids,
   * following the cursors from null to null returns exactly the ordered
   * matching rows below the starting cursor.
   */
  lemma {:induction false} WalkIsSortedMatches<T(!new)>(candidates: seq<Ranked<T>>, cursor: Option<Key>, limit: nat)
    requires limit > 0
    requires UniformRank(candidates) && DistinctKeys(candidates)
    ensures Walk(candidates, cursor, limit) == Sort(Below(candidates, cursor))
    decreases |Below(candidates, cursor)|
  {
    var matched := Sort(Below(candidates, cursor));
    if |matched| > limit {
      var k := matched[limit - 1].key;
      BelowShrinks(candidates, cursor, k, matched[limit - 1]);
      WalkIsSortedMatches(candidates, Some(k), limit);
      RestIsTail(candidates, cursor, limit);
      WalkNextPage(candidates, cursor, limit);
    } else {
      ListIsPrefix(candidates, cursor, limit);
    }
  }

  /** One step of the walk: a full page followed by the rest of the walk from its cursor. */
  lemma WalkNextPage<T(!new)>(candidates: seq<Ranked<T>>, cursor: Option<Key>, limit: nat)
    requires limit > 0 && |Below(candidates, cursor)| > limit
    requires var k := Sort(Below(candidates, cursor))[limit - 1].key;
      Walk(candidates, Some(k), limit) == Sort(Below(candidates, cursor))[limit..]
    ensures Walk(candidates, cursor, limit) == Sort(Below(candidates, cursor))
  {
    var matched := Sort(Below(candidates, cursor));
    var k := matched[limit - 1].key;
    WalkUnfold(candidates, cursor, limit);
    assert matched == matched[..limit] + matched[limit..];
  }

  lemma WalkUnfold<T(!new)>(candidates: seq<Ranked<T>>, cursor: Option<Key>, limit: nat)
    requires limit > 0 && |Below(candidates, cursor)| > limit
    ensures var matched := Sort(Below(candidates, cursor));
      Walk(candidates, cursor, limit) == matched[..limit] + Walk(candidates, Some(matched[limit - 1].key), limit)
  {
    ListIsPrefix(candidates, cursor, limit);
  }

  /** A page is the first `limit` ordered matches; the cursor is the key of the last one. */
  lemma ListIsPrefix<T(!new)>(candidates: seq<Ranked<T>>, cursor: Option<Key>, limit: nat)
    requires limit > 0
    ensures var matched := Sort(Below(candidates, cursor));
      var p := List(candidates, cursor, limit);
      && (|matched| <= limit ==> p.items == matched && p.next.None?)
      && (|matched| > limit ==> p.items == matched[..limit] && p.next == Some(matched[limit - 1].key))
  {
    var matched := Sort(Below(candidates, cursor));
    var fetched := Fetch(candidates, cursor, limit);
    if |matched| <= limit {
      assert fetched == matched;
      assert Slice(fetched, limit).items == fetched;
    } else {
      assert fetched == matched[..limit + 1];
      assert Slice(fetched, limit).items == matched[..limit];
    }
  }

  /** The matches below the returned cursor are exactly the ordered matches after the page. */
  lemma RestIsTail<T(!new)>(candidates: seq<Ranked<T>>, cursor: Option<Key>, limit: nat)
    requires limit > 0 && UniformRank(candidates) && DistinctKeys(candidates)
    requires |Below(candidates, cursor)| > limit
    ensures Sort(Below(candidates, Some(Sort(Below(candidates, cursor))[limit - 1].key)))
         == Sort(Below(candidates, cursor))[limit..]
  {
    var matched := Sort(Below(candidates, cursor));
    var k := matched[limit - 1].key;
    SortSorted(Below(candidates, cursor));
    BelowKeepsDistinctKeys(candidates, cursor);
    SortKeepsDistinctKeys(Below(candidates, cursor));
    SortedDistinctIsStrict(matched);
    var rest := Sort(Below(candidates, Some(k)));
    SortSorted(Below(candidates, Some(k)));
    BelowKeepsDistinctKeys(candidates, Some(k));
    SortKeepsDistinctKeys(Below(candidates, Some(k)));
    SortedDistinctIsStrict(rest);
    StrictTail(matched, limit);
    TailBelowLast(candidates, cursor, limit);
    RestBelowLast(candidates, cursor, limit);
    StrictlySortedUnique(rest, matched[limit..]);
  }

  /** The ordered matches after the first `limit` are all below the cursor the page returns. */
  lemma TailBelowLast<T(!new)>(candidates: seq<Ranked<T>>, cursor: Option<Key>, limit: nat)
    requires limit > 0 && UniformRank(candidates) && DistinctKeys(candidates)
    requires |Below(candidates, cursor)| > limit
    ensures forall y :: y in Sort(Below(candidates, cursor))[limit..] ==>
      y in Sort(Below(candidates, Some(Sort(Below(candidates, cursor))[limit - 1].key)))
  {
    var below := Below(candidates, cursor);
    var matched := Sort(below);
    SortSorted(below);
    BelowKeepsDistinctKeys(candidates, cursor);
    SortKeepsDistinctKeys(below);
    SortedDistinctIsStrict(matched);
    var k := matched[limit - 1].key;
    forall y | y in matched[limit..] ensures y in Sort(Below(candidates, Some(k))) {
      var j :| 0 <= j < |matched[limit..]| && matched[limit..][j] == y;
      assert Before(matched[limit - 1], matched[limit + j]);
      assert y in matched;
      SameRankKeyOrder(candidates, matched[limit - 1], y);
    }
  }

  /** Every match below the returned cursor lies after the first `limit` ordered matches. */
  lemma RestBelowLast<T(!new)>(candidates: seq<Ranked<T>>, cursor: Option<Key>, limit: nat)
    requires limit > 0 && UniformRank(candidates) && DistinctKeys(candidates)
    requires |Below(candidates, cursor)| > limit
    ensures forall y :: y in Sort(Below(candidates, Some(Sort(Below(candidates, cursor))[limit - 1].key))) ==>
      y in Sort(Below(candidates, cursor))[limit..]
  {
    var below := Below(candidates, cursor);
    var matched := Sort(below);
    SortSorted(below);
    BelowKeepsDistinctKeys(candidates, cursor);
    SortKeepsDistinctKeys(below);
    SortedDistinctIsStrict(matched);
    var k := matched[limit - 1].key;
    forall y | y in Sort(Below(candidates, Some(k))) ensures y in matched[limit..] {
      assert y in candidates && KeyLt(y.key, k);
      if cursor.Some? { KeyLtTransitive(y.key, k, cursor.value); }
      assert y in matched;
      PastLimit(candidates, matched, limit, y);
    }
  }

  /** In a strict listing of same-rank rows, a row keyed below the `limit`-th row's key comes after the first `limit`. */
  lemma PastLimit<T(!new)>(candidates: seq<Ranked<T>>, matched: seq<Ranked<T>>, limit: nat, y: Ranked<T>)
    requires UniformRank(candidates) && StrictlySorted(matched)
    requires 0 < limit <= |matched|
    requires forall x :: x in matched ==> x in candidates
    requires y in matched && KeyLt(y.key, matched[limit - 1].key)
    ensures y in matched[limit..]
  {
    var j :| 0 <= j < |matched| && matched[j] == y;
    if j < limit - 1 {
      SameRankKeyOrder(candidates, matched[j], matched[limit - 1]);
      KeyLtAsymmetric(y.key, matched[limit - 1].key);
      assert false;
    } else if j == limit - 1 {
      KeyLtIrreflexive(y.key);
      assert false;
    }
    assert matched[limit..][j - limit] == y;
  }

  lemma StrictTail<T(!new)>(s: seq<Ranked<T>>, n: nat)
    requires StrictlySorted(s) && n <= |s|
    ensures StrictlySorted(s[n..])
  {
    forall i, j | 0 <= i < j < |s[n..]| ensures Before(s[n..][i], s[n..][j]) {
      assert s[n..][i] == s[n + i] && s[n..][j] == s[n + j];
    }
  }

  lemma SameRankKeyOrder<T(!new)>(candidates: seq<Ranked<T>>, x: Ranked<T>, y: Ranked<T>)
    requires UniformRank(candidates)
    requires x in candidates && y in candidates
    requires Before(x, y)
    ensures KeyLt(y.key, x.key)
  {
  }

  /**
   * Pagination completeness for sort "new": starting from no cursor, the
   * pages together hold every candidate exactly once, newest first, in
   * strictly decreasing (created_at, id).
   */
  lemma WalkFromStartIsComplete<T(!new)>(candidates: seq<Ranked<T>>, limit: nat)
    requires limit > 0
    requires UniformRank(candidates) && DistinctKeys(candidates)
    ensures |Walk(candidates, None, limit)| == |candidates|
    ensures forall y :: y in Walk(candidates, None, limit) <==> y in candidates
    ensures multiset(Walk(candidates, None, limit)) == multiset(candidates)
    ensures KeysDescending(Walk(candidates, None, limit))
  {
    WalkIsSortedMatches(candidates, None, limit);
    var all := Below(candidates, None);
    BelowNoneIsAll(candidates);
    SortSorted(all);
    SortKeepsDistinctKeys(all);
    var w := Sort(all);
    SortedDistinctIsStrict(w);
    forall i, j | 0 <= i < j < |w| ensures KeyLt(w[j].key, w[i].key) {
      assert w[i] in candidates && w[j] in candidates;
      SameRankKeyOrder(candidates, w[i], w[j]);
    }
  }

  lemma {:induction false} BelowNoneIsAll<T(!new)>(s: seq<Ranked<T>>)
    ensures Below(s, None) == s
    decreases |s|
  {
    if |s| > 0 { BelowNoneIsAll(s[1..]); assert s == [s[0]] + s[1..]; }
  }
}
