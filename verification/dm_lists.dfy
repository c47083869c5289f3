/**
 * The two DM listings of apps/api/src/routes/v1/dm.ts: a conversation's
 * messages, newest first and paged by (created_at, id), which also moves
 * the reader's marker; and the caller's conversations, most recently
 * active first.
 */
module DmLists {
  import opened Wrappers
  import opened Http
  import opened Ordering
  import opened Listing
  import opened Pagination
  import opened Schema
  import opened Sorting
  import opened Dm
  import Paging

  // ------------------------------------------ GET /dm/conversations/:id/messages

  /** The message page's bounds: default 50, at most 100. */
  const MessageLimits: LimitOptions := LimitOptions(1, 100, 50)

  /** A message joined with its sender's name. */
  datatype MessageRow = MessageRow(message: Message, senderName: string)

  function RankedMessage(db: Db, m: Message): Ranked<MessageRow>
    requires AgentById(db, m.senderId).Some?
  {
    Ranked(0.0, Key(m.createdAt, m.id), MessageRow(m, AgentById(db, m.senderId).value.name))
  }

  /** A message the query returns: of the conversation, with a sender that joins. */
  predicate Listed(db: Db, m: Message, convId: string) {
    m.conversationId == convId && AgentById(db, m.senderId).Some?
  }

  /** The rows the messages query orders: every listed message of `msgs`, keyed by (created_at, id). */
  function MessageCandidates(db: Db, msgs: seq<Message>, convId: string): (r: seq<Ranked<MessageRow>>)
    ensures forall x :: x in r ==> x.row.message in msgs && Listed(db, x.row.message, convId) && x == RankedMessage(db, x.row.message)
    ensures forall m :: m in msgs && Listed(db, m, convId) ==> RankedMessage(db, m) in r
    ensures UniformRank(r)
    decreases |msgs|
  {
    if |msgs| == 0 then []
    else
      var rest := MessageCandidates(db, msgs[1..], convId);
      assert forall m :: m in msgs <==> m == msgs[0] || m in msgs[1..];
      if Listed(db, msgs[0], convId) then [RankedMessage(db, msgs[0])] + rest else rest
  }

  /** With unique message ids the rows have unique keys. */
  lemma {:induction false} MessageCandidatesDistinct(db: Db, msgs: seq<Message>, convId: string)
    requires UniqueBy(msgs, (m: Message) => m.id)
    ensures DistinctKeys(MessageCandidates(db, msgs, convId))
    decreases |msgs|
  {
    if |msgs| > 0 {
      var tail := msgs[1..];
      assert UniqueBy(tail, (m: Message) => m.id) by {
        forall i, j | 0 <= i < j < |tail| ensures tail[i].id != tail[j].id {
          assert tail[i] == msgs[i + 1] && tail[j] == msgs[j + 1];
        }
      }
      MessageCandidatesDistinct(db, tail, convId);
      var rest := MessageCandidates(db, tail, convId);
      forall x | x in rest ensures x.key.id != msgs[0].id {
        var k :| 0 <= k < |tail| && tail[k] == x.row.message;
        assert msgs[k + 1] == x.row.message;
      }
    }
  }

  /** The query's `c.id = ? AND (c.agent_a_id = ? OR c.agent_b_id = ?)`. */
  predicate MayRead(db: Db, convId: string, me: string) {
    exists i :: 0 <= i < |db.conversations| && db.conversations[i].id == convId && Participant(db.conversations[i], me)
  }

  /**
   * GET /dm/conversations/:conversationId/messages: one page of the
   * conversation's messages, newest first, strictly below the cursor; then,
   * in its own transaction, the caller's read marker moves to `now` (404
   * for an unknown conversation, 403 for an outsider, and no page then).
   */
  function ReadMessages(db: Db, me: Option<string>, convId: string, limit: LimitInput, cursor: Option<string>,
                        now: int, tt: TimeText): (r: Run<Paging.Response<MessageRow>>)
    ensures r.result.Fail? ==> r.db == db
    ensures me.None? ==> r.result == Fail(Unauthenticated)
    ensures me.Some? ==>
      var k := ConversationIndex(db, convId);
      && (k.None? ==> r.result == Fail(ConversationNotFound))
      && (k.Some? && !Participant(db.conversations[k.value], me.value) ==> r.result == Fail(NotParticipant))
      && (k.Some? && Participant(db.conversations[k.value], me.value) ==> r.result.Ok?)
    ensures r.result.Ok? ==> |r.db.conversations| == |db.conversations|
    ensures r.result.Ok? ==>
      var k := ConversationIndex(db, convId).value;
      var n := ParseLimit(limit, MessageLimits);
      var c := CursorKey(DecodeCursor(cursor), tt);
      var page := r.result.value;
      && 1 <= n <= 100
      && |page.items| <= n
      && Sorted(page.items)
      && (forall i :: 0 <= i < |page.items| ==>
            var m := page.items[i].row.message;
            m in db.messages && Listed(db, m, convId) && page.items[i].key == Key(m.createdAt, m.id)
            && BelowCursor(page.items[i].key, c))
      && (page.nextCursor.Some? <==> |Below(MessageCandidates(db, db.messages, convId), c)| > n)
      && (page.nextCursor.Some? ==> |page.items| == n)
      && page.items == List(MessageCandidates(db, db.messages, convId), c, n).items
      && ReadMarker(r.db.conversations[k], me.value) == Some(now)
      && r.db == db.(conversations := r.db.conversations)
  {
    if me.None? then Reject(db, Unauthenticated)
    else
      var rows := if MayRead(db, convId, me.value) then MessageCandidates(db, db.messages, convId) else [];
      var page := Paging.Serve(rows, cursor, limit, MessageLimits, tt);
      match ConversationIndex(db, convId)
      case None => Reject(db, ConversationNotFound)
      case Some(k) =>
        var conv := db.conversations[k];
        if !Participant(conv, me.value) then Reject(db, NotParticipant)
        else
          assert MayRead(db, convId, me.value);
          LimitInBounds(limit, MessageLimits);
          PageRowsListed(db, convId, page.items);
          var convs := UpdateConversation(db.conversations, convId, (x: Conversation) => SetMarker(x, conv, me.value, now));
          MarkerStamped(db.conversations, convId, k, me.value, now);
          Atomically(db, Run(db.(conversations := convs), Ok(page)))
  }

  /**
   * Sending back a message page's `next_cursor` asks for the page below the
   * key it was made from, so a participant following the cursors takes the
   * steps of `Listing.Walk` over the conversation's messages.
   */
  lemma ReadMessagesFollowsCursor(db: Db, me: string, convId: string, limit: LimitInput, next: Option<Key>,
                                  now: int, tt: TimeText)
    requires RoundTrips(tt)
    requires ConversationIndex(db, convId).Some? && Participant(db.conversations[ConversationIndex(db, convId).value], me)
    ensures var r := ReadMessages(db, Some(me), convId, limit, NextCursor(next, tt), now, tt);
      var p := List(MessageCandidates(db, db.messages, convId), next, ParseLimit(limit, MessageLimits));
      r.result.Ok? && r.result.value.items == p.items && (r.result.value.nextCursor.Some? <==> p.next.Some?)
  {
    NextCursorRoundTrip(next, tt);
  }

  /** Every row drawn from the candidates is a listed message of the table, keyed by its own time and id. */
  lemma PageRowsListed(db: Db, convId: string, items: seq<Ranked<MessageRow>>)
    requires forall i :: 0 <= i < |items| ==> items[i] in MessageCandidates(db, db.messages, convId)
    ensures forall i :: 0 <= i < |items| ==>
      var m := items[i].row.message;
      m in db.messages && Listed(db, m, convId) && items[i].key == Key(m.createdAt, m.id)
  {
  }

  /** Stamping the reader's marker on the conversation at `k` sets the reader's own marker there. */
  lemma MarkerStamped(convs: seq<Conversation>, convId: string, k: nat, me: string, now: int)
    requires k < |convs| && convs[k].id == convId
    ensures var u := UpdateConversation(convs, convId, (x: Conversation) => SetMarker(x, convs[k], me, now));
      |u| == |convs| && ReadMarker(u[k], me) == Some(now)
  {
  }

  /** Reading a conversation clears its news for the reader, unless a message is later than the read. */
  lemma ReadingClearsNews(db: Db, me: string, convId: string, limit: LimitInput, cursor: Option<string>, now: int, tt: TimeText)
    requires ReadMessages(db, Some(me), convId, limit, cursor, now, tt).result.Ok?
    requires var k := ConversationIndex(db, convId).value;
      db.conversations[k].lastMessageAt.Some? ==> db.conversations[k].lastMessageAt.value <= now
    ensures var k := ConversationIndex(db, convId).value;
      !HasNew(ReadMessages(db, Some(me), convId, limit, cursor, now, tt).db.conversations[k], me)
  {
  }

  /**
   * Message paging is complete: with unique message ids, following the
   * cursors from the start yields every listed message of the conversation
   * exactly once, in strictly decreasing (created_at, id) order.
   */
  lemma MessagesNewestFirstIsComplete(db: Db, convId: string, limit: nat)
    requires limit > 0 && UniqueBy(db.messages, (m: Message) => m.id)
    ensures var all := MessageCandidates(db, db.messages, convId);
      var w := Walk(all, None, limit);
      && (forall m :: m in db.messages && Listed(db, m, convId) ==> RankedMessage(db, m) in w)
      && (forall x :: x in w ==> x.row.message in db.messages && Listed(db, x.row.message, convId))
      && multiset(w) == multiset(all)
      && KeysDescending(w)
  {
    var all := MessageCandidates(db, db.messages, convId);
    MessageCandidatesDistinct(db, db.messages, convId);
    WalkFromStartIsComplete(all, limit);
  }

  // ---------------------------------------------------------- GET /dm/conversations

  /** The conversations listing returns at most this many rows. */
  const ConversationListMax: nat := 200

  /** `last_message_at` a no earlier than b, with a missing time sorting last (MySQL's `DESC`). */
  predicate NotBefore(a: Option<int>, b: Option<int>) {
    b.None? || (a.Some? && a.value >= b.value)
  }

  /** `ORDER BY c.last_message_at DESC, c.created_at DESC`: `x` may come before `y`. */
  function ActivityLe(): (Conversation, Conversation) -> bool {
    (x: Conversation, y: Conversation) =>
      if x.lastMessageAt != y.lastMessageAt then NotBefore(x.lastMessageAt, y.lastMessageAt)
      else x.createdAt >= y.createdAt
  }

  lemma ActivityOrder()
    ensures TotalPreorder(ActivityLe())
  {
  }

  /** The other side of a conversation, as the caller sees it. */
  function Other(c: Conversation, me: string): string {
    if c.a == me then c.b else c.a
  }

  /** One item of the listing. */
  datatype ConversationItem = ConversationItem(
    id: string, withId: string, withName: string, lastMessageAt: Option<int>, unreadCount: nat, approved: bool)

  /** Messages from the other side later than the caller's read marker (a missing marker is the epoch). */
  function Unread(msgs: seq<Message>, c: Conversation, me: string): (r: seq<Message>)
    ensures forall m :: m in r <==>
      m in msgs && m.conversationId == c.id && m.senderId != me && m.createdAt > ReadMarker(c, me).GetOr(0)
  {
    if |msgs| == 0 then []
    else
      var m := msgs[0];
      var rest := Unread(msgs[1..], c, me);
      assert forall x :: x in msgs <==> x == m || x in msgs[1..];
      if m.conversationId == c.id && m.senderId != me && m.createdAt > ReadMarker(c, me).GetOr(0) then [m] + rest else rest
  }

  /** A conversation row the query returns: the caller takes part and both sides join. */
  predicate Mine(db: Db, c: Conversation, me: string) {
    Participant(c, me) && AgentById(db, c.a).Some? && AgentById(db, c.b).Some?
  }

  function MineIn(db: Db, convs: seq<Conversation>, me: string): (r: seq<Conversation>)
    ensures forall c :: c in r <==> c in convs && Mine(db, c, me)
  {
    if |convs| == 0 then []
    else
      var rest := MineIn(db, convs[1..], me);
      assert forall x :: x in convs <==> x == convs[0] || x in convs[1..];
      if Mine(db, convs[0], me) then [convs[0]] + rest else rest
  }

  /** The item describing conversation `c` to `me`. */
  predicate Describes(db: Db, item: ConversationItem, c: Conversation, me: string) {
    && Mine(db, c, me)
    && item.id == c.id
    && item.withId == Other(c, me)
    && item.withName == AgentById(db, Other(c, me)).value.name
    && item.lastMessageAt == c.lastMessageAt
    && item.unreadCount == |Unread(db.messages, c, me)|
    && (item.approved <==> exists q :: q in db.requests && q.conversationId == c.id && q.status == RequestApproved)
  }

  function ItemOf(db: Db, c: Conversation, me: string): ConversationItem
    requires Mine(db, c, me)
  {
    var other := Other(c, me);
    ConversationItem(c.id, other, AgentById(db, other).value.name, c.lastMessageAt,
      |Unread(db.messages, c, me)|, IsApproved(db, c.id))
  }

  /** Each listed item describes its conversation. */
  lemma ItemOfDescribes(db: Db, c: Conversation, me: string)
    requires Mine(db, c, me)
    ensures Describes(db, ItemOf(db, c, me), c, me)
  {
    IsApprovedMeans(db, c.id);
  }

  function ItemsOf(db: Db, cs: seq<Conversation>, me: string): (r: seq<ConversationItem>)
    requires forall c :: c in cs ==> Mine(db, c, me)
    ensures |r| == |cs|
    ensures forall i :: 0 <= i < |r| ==> r[i] == ItemOf(db, cs[i], me)
  {
    seq(|cs|, i requires 0 <= i < |cs| => ItemOf(db, cs[i], me))
  }

  /** Conversations in activity order have their last message times in `DESC` order. */
  lemma ActivityOrderedTimes(cs: seq<Conversation>)
    requires SortedBy(cs, ActivityLe())
    ensures forall i, j :: 0 <= i < j < |cs| ==> NotBefore(cs[i].lastMessageAt, cs[j].lastMessageAt)
  {
    forall i, j | 0 <= i < j < |cs| ensures NotBefore(cs[i].lastMessageAt, cs[j].lastMessageAt) {
      assert ActivityLe()(cs[i], cs[j]);
    }
  }

  /** The caller's conversations in listing order. */
  function MineSorted(db: Db, me: string): (r: seq<Conversation>)
    ensures |r| == |MineIn(db, db.conversations, me)|
    ensures forall c :: c in r <==> c in db.conversations && Mine(db, c, me)
    ensures SortedBy(r, ActivityLe())
    ensures forall i, j :: 0 <= i < j < |r| ==> NotBefore(r[i].lastMessageAt, r[j].lastMessageAt)
  {
    var mine := MineIn(db, db.conversations, me);
    ActivityOrder();
    var sorted := SortBy(mine, ActivityLe());
    SortByLength(mine, ActivityLe());
    ActivityOrderedTimes(sorted);
    forall c ensures c in sorted <==> c in mine {
      assert c in sorted <==> c in multiset(sorted);
      assert c in mine <==> c in multiset(mine);
    }
    sorted
  }

  /**
   * The conversations GET /dm/conversations shows agent `me`: their own,
   * most recent message first (never-used ones last), at most 200; all
   * of them when they are no more than 200. A conversation left out
   * never ranks before one that is shown.
   */
  function Shown(db: Db, me: string): (r: seq<Conversation>)
    ensures var all := |MineIn(db, db.conversations, me)|;
      |r| == if all < ConversationListMax then all else ConversationListMax
    ensures forall c :: c in r ==> c in db.conversations && Mine(db, c, me)
    ensures SortedBy(r, ActivityLe())
    ensures forall i, j :: 0 <= i < j < |r| ==> NotBefore(r[i].lastMessageAt, r[j].lastMessageAt)
    ensures |MineIn(db, db.conversations, me)| <= ConversationListMax ==>
      forall c :: c in db.conversations && Mine(db, c, me) ==> c in r
    ensures forall x, y :: x in r && y in db.conversations && Mine(db, y, me) && y !in r ==> ActivityLe()(x, y)
  {
    var sorted := MineSorted(db, me);
    var n := if |sorted| < ConversationListMax then |sorted| else ConversationListMax;
    var shown := sorted[..n];
    assert forall c :: c in shown ==> c in sorted;
    assert n == |sorted| ==> shown == sorted;
    PrefixLeads(sorted, n, ActivityLe());
    shown
  }

  /** The listing's items: each shown conversation described, in the same order. */
  function ConversationItems(db: Db, me: string): (r: seq<ConversationItem>)
    ensures |r| == |Shown(db, me)|
    ensures forall i :: 0 <= i < |r| ==> Describes(db, r[i], Shown(db, me)[i], me)
    ensures forall i, j :: 0 <= i < j < |r| ==> NotBefore(r[i].lastMessageAt, r[j].lastMessageAt)
  {
    var shown := Shown(db, me);
    var r := ItemsOf(db, shown, me);
    forall i | 0 <= i < |r| ensures Describes(db, r[i], shown[i], me) {
      assert shown[i] in shown;
      ItemOfDescribes(db, shown[i], me);
    }
    r
  }

  /** GET /dm/conversations: 401 without a caller, else the caller's items. */
  function ListConversations(db: Db, me: Option<string>): (r: Outcome<seq<ConversationItem>>)
    ensures r.Fail? <==> me.None?
    ensures r.Fail? ==> r.err == Unauthenticated
    ensures r.Ok? ==> r.value == ConversationItems(db, me.value)
  {
    if me.None? then Fail(Unauthenticated) else Ok(ConversationItems(db, me.value))
  }
}
