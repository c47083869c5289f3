/**
 * Direct messages (apps/api/src/routes/v1/dm.ts): a conversation per pair
 * of agents, opened by a request the recipient approves, after which
 * either side may send. Each side has a read marker; `/dm/check` reports
 * pending requests and conversations with news.
 */
module Dm {
  import opened Wrappers
  import opened Json
  import opened Http
  import opened Ordering
  import opened Schema
  import Shared

  /** `orderedPair`: the two agent ids, smaller first, as a conversation row stores them. */
  function OrderedPair(x: string, y: string): (r: (string, string))
    ensures r == (x, y) || r == (y, x)
    ensures !StrLt(r.1, r.0)
  {
    if StrLt(x, y) then
      StrLtAsymmetric(x, y);
      (x, y)
    else (y, x)
  }

  /** Both orders of the same two agents name the same conversation. */
  lemma OrderedPairSymmetric(x: string, y: string)
    ensures OrderedPair(x, y) == OrderedPair(y, x)
  {
    StrLtTotal(x, y);
    if StrLt(x, y) { StrLtAsymmetric(x, y); }
  }

  predicate Participant(c: Conversation, me: string) {
    c.a == me || c.b == me
  }

  /** The caller's read marker: side a's when the caller is `a`, else side b's. */
  function ReadMarker(c: Conversation, me: string): Option<int> {
    if c.a == me then c.aLastRead else c.bLastRead
  }

  /**
   * A conversation has news for `me` when it has a last message later than
   * `me`'s read marker, a missing marker counting as the epoch.
   */
  predicate HasNew(c: Conversation, me: string) {
    c.lastMessageAt.Some? && c.lastMessageAt.value > ReadMarker(c, me).GetOr(0)
  }

  // ---------------------------------------------------------------- GET /dm/check

  datatype CheckResult = CheckResult(hasNewMessages: bool, pendingRequests: nat)

  /** The pending requests addressed to `me`, in table order. */
  function PendingTo(requests: seq<DmRequest>, me: string): (r: seq<DmRequest>)
    ensures |r| <= |requests|
    ensures forall x :: x in r <==> x in requests && x.to == me && x.status == RequestPending
    ensures forall x :: multiset(r)[x] == if x.to == me && x.status == RequestPending then multiset(requests)[x] else 0
  {
    if |requests| == 0 then []
    else
      var rest := PendingTo(requests[1..], me);
      assert requests == [requests[0]] + requests[1..];
      if requests[0].to == me && requests[0].status == RequestPending then [requests[0]] + rest else rest
  }

  function AnyNew(convs: seq<Conversation>, me: string): (b: bool)
    ensures b <==> exists c :: c in convs && Participant(c, me) && HasNew(c, me)
  {
    if |convs| == 0 then false
    else
      assert forall c :: c in convs <==> c == convs[0] || c in convs[1..];
      (Participant(convs[0], me) && HasNew(convs[0], me)) || AnyNew(convs[1..], me)
  }

  /** GET /dm/check */
  function Check(db: Db, me: Option<string>): (r: Outcome<CheckResult>)
    ensures r.Fail? <==> me.None?
    ensures r.Fail? ==> r.err == Unauthenticated
    ensures r.Ok? ==>
      (r.value.hasNewMessages <==> exists c :: c in db.conversations && Participant(c, me.value) && HasNew(c, me.value))
    ensures r.Ok? ==>
      && r.value.pendingRequests <= |db.requests|
      && r.value.pendingRequests == |PendingTo(db.requests, me.value)|
      && (r.value.pendingRequests == 0 <==>
            forall x :: x in db.requests ==> !(x.to == me.value && x.status == RequestPending))
  {
    if me.None? then Fail(Unauthenticated)
    else
      var pending := PendingTo(db.requests, me.value);
      assert |pending| > 0 ==> pending[0] in pending;
      Ok(CheckResult(AnyNew(db.conversations, me.value), |pending|))
  }

  // -------------------------------------------------------------- POST /dm/request

  const CannotDmSelf: ApiError := Err(400, BadRequest, "Cannot DM yourself")
  const DmNotAllowed: ApiError := Err(403, Forbidden, "DM not allowed")

  /** The 409 of a second request, naming the conversation and the pending request's sides. */
  function PendingExists(convId: string, p: DmRequest): ApiError {
    ApiError(409, Conflict, "A pending request already exists",
      Some([("conversation_id", JStr(convId)), ("from", JStr(p.from)), ("to", JStr(p.to))]))
  }

  /** A block row in either direction. */
  predicate Blocked(db: Db, x: string, y: string) {
    (x, y) in db.blocks || (y, x) in db.blocks
  }

  function ConversationBetween(db: Db, a: string, b: string): Option<Conversation> {
    match Find(db.conversations, (c: Conversation) => c.a == a && c.b == b)
    case Some(i) => Some(db.conversations[i])
    case None => None
  }

  function PendingIn(db: Db, convId: string): Option<DmRequest> {
    match Find(db.requests, (q: DmRequest) => q.conversationId == convId && q.status == RequestPending)
    case Some(i) => Some(db.requests[i])
    case None => None
  }

  /** The conversation a request between `me` and `to` uses: the pair's existing one, else a new one. */
  function PairConversationId(db: Db, me: string, to: string, convId: string): string {
    var (a, b) := OrderedPair(me, to);
    match ConversationBetween(db, a, b)
    case Some(c) => c.id
    case None => convId
  }

  /** The transaction of POST /dm/request: reuse or open the conversation, then file the request. */
  function OpenRequest(db: Db, me: string, to: string, message: string, convId: string, requestId: string, now: int): Run<string> {
    var (a, b) := OrderedPair(me, to);
    var existing := ConversationBetween(db, a, b);
    var cid := if existing.Some? then existing.value.id else convId;
    var withConv := if existing.Some? then db
      else db.(conversations := db.conversations + [Conversation(convId, a, b, now, None, None, None)]);
    match PendingIn(withConv, cid)
    case Some(p) => Run(withConv, Fail(PendingExists(cid, p)))
    case None => Run(withConv.(requests := withConv.requests + [DmRequest(requestId, cid, me, to, message, RequestPending, None)]), Ok(cid))
  }

  /**
   * POST /dm/request by `me`; `convId` and `requestId` are the generated
   * ids and `now` the time. The checks run in this order: the caller, the
   * body, the recipient, self, blocks, then a pending request in the
   * pair's conversation, which rolls the whole transaction back.
   */
  function Request(db: Db, me: Option<string>, body: Json, convId: string, requestId: string, now: int): (r: Run<string>)
    ensures r.result.Fail? ==> r.db == db
    ensures me.None? ==> r.result == Fail(Unauthenticated)
    ensures me.Some? && Shared.ParseDmRequest(body).None? ==> r.result == Fail(Shared.InvalidBody)
    ensures me.Some? && Shared.ParseDmRequest(body).Some? ==>
      var to := AgentByName(db, Shared.ParseDmRequest(body).value.to);
      && (to.None? ==> r.result == Fail(AgentNotFound))
      && (to.Some? && to.value.id == me.value ==> r.result == Fail(CannotDmSelf))
      && (to.Some? && to.value.id != me.value && Blocked(db, me.value, to.value.id) ==> r.result == Fail(DmNotAllowed))
      && (to.Some? && to.value.id != me.value && !Blocked(db, me.value, to.value.id) ==>
            var cid := PairConversationId(db, me.value, to.value.id, convId);
            && (PendingIn(db, cid).Some? ==> r.result == Fail(PendingExists(cid, PendingIn(db, cid).value)))
            && (PendingIn(db, cid).None? ==> r.result == Ok(cid)))
    ensures r.result.Ok? ==>
      var b := Shared.ParseDmRequest(body).value;
      var to := AgentByName(db, b.to).value;
      var pair := OrderedPair(me.value, to.id);
      && r.db.requests == db.requests + [DmRequest(requestId, r.result.value, me.value, to.id, b.message, RequestPending, None)]
      && (ConversationBetween(db, pair.0, pair.1).Some? ==> r.db.conversations == db.conversations)
      && (ConversationBetween(db, pair.0, pair.1).None? ==>
            r.db.conversations == db.conversations + [Conversation(convId, pair.0, pair.1, now, None, None, None)])
      && r.db == db.(conversations := r.db.conversations, requests := r.db.requests)
  {
    if me.None? then Reject(db, Unauthenticated)
    else match Shared.ParseDmRequest(body)
      case None => Reject(db, Shared.InvalidBody)
      case Some(b) =>
        match AgentByName(db, b.to)
        case None => Reject(db, AgentNotFound)
        case Some(to) =>
          if to.id == me.value then Reject(db, CannotDmSelf)
          else if Blocked(db, me.value, to.id) then Reject(db, DmNotAllowed)
          else Atomically(db, OpenRequest(db, me.value, to.id, b.message, convId, requestId, now))
  }

  /** At most one conversation row per ordered pair. */
  predicate OneConversationPerPair(db: Db) {
    forall i, j :: 0 <= i < j < |db.conversations| ==>
      (db.conversations[i].a, db.conversations[i].b) != (db.conversations[j].a, db.conversations[j].b)
  }

  /** At most one pending request per conversation. */
  predicate OnePendingPerConversation(db: Db) {
    forall i, j :: 0 <= i < j < |db.requests| && db.requests[i].status == RequestPending && db.requests[j].status == RequestPending ==>
      db.requests[i].conversationId != db.requests[j].conversationId
  }

  /** A request opens a conversation only for a pair that has none. */
  lemma RequestKeepsOneConversationPerPair(db: Db, me: Option<string>, body: Json, convId: string, requestId: string, now: int)
    requires OneConversationPerPair(db)
    ensures OneConversationPerPair(Request(db, me, body, convId, requestId, now).db)
  {
    var r := Request(db, me, body, convId, requestId, now);
    if r.result.Ok? {
      var to := AgentByName(db, Shared.ParseDmRequest(body).value.to).value;
      var pair := OrderedPair(me.value, to.id);
      if ConversationBetween(db, pair.0, pair.1).None? {
        var cs := r.db.conversations;
        forall i, j | 0 <= i < j < |cs| ensures (cs[i].a, cs[i].b) != (cs[j].a, cs[j].b) {
          if j == |db.conversations| {
            assert cs[i] == db.conversations[i];
          } else {
            assert cs[i] == db.conversations[i] && cs[j] == db.conversations[j];
          }
        }
      }
    }
  }

  /** A request is filed only into a conversation with no pending request. */
  lemma RequestKeepsOnePending(db: Db, me: Option<string>, body: Json, convId: string, requestId: string, now: int)
    requires OnePendingPerConversation(db)
    ensures OnePendingPerConversation(Request(db, me, body, convId, requestId, now).db)
  {
    var r := Request(db, me, body, convId, requestId, now);
    if r.result.Ok? {
      var cid := r.result.value;
      assert PendingIn(db, cid).None?;
      var qs := r.db.requests;
      forall i, j | 0 <= i < j < |qs| && qs[i].status == RequestPending && qs[j].status == RequestPending
        ensures qs[i].conversationId != qs[j].conversationId
      {
        assert qs[i] == db.requests[i];
        if j < |db.requests| { assert qs[j] == db.requests[j]; }
      }
    }
  }

  /**
   * Once a request is filed, a second one between the same two agents, in
   * either direction, finds it pending and is refused.
   */
  lemma SecondRequestConflicts(db: Db, me: string, to: string, message: string, convId: string, requestId: string, now: int,
                               sender: string, recipient: string, message2: string, convId2: string, requestId2: string, now2: int)
    requires OpenRequest(db, me, to, message, convId, requestId, now).result.Ok?
    requires (sender, recipient) == (me, to) || (sender, recipient) == (to, me)
    ensures var first := OpenRequest(db, me, to, message, convId, requestId, now);
      var second := OpenRequest(first.db, sender, recipient, message2, convId2, requestId2, now2);
      second.result.Fail? && second.result.err.status == 409
  {
    OrderedPairSymmetric(me, to);
    var first := OpenRequest(db, me, to, message, convId, requestId, now);
    var (a, b) := OrderedPair(me, to);
    var cid := first.result.value;
    var existing := ConversationBetween(db, a, b);
    if existing.None? {
      FindAppend(db.conversations, Conversation(convId, a, b, now, None, None, None), (c: Conversation) => c.a == a && c.b == b);
    }
    assert ConversationBetween(first.db, a, b).Some? && ConversationBetween(first.db, a, b).value.id == cid;
    var withConv := if existing.Some? then db
      else db.(conversations := db.conversations + [Conversation(convId, a, b, now, None, None, None)]);
    assert PendingIn(withConv, cid).None?;
    FindAppend(withConv.requests, DmRequest(requestId, cid, me, to, message, RequestPending, None),
      (q: DmRequest) => q.conversationId == cid && q.status == RequestPending);
    assert PendingIn(first.db, cid).Some?;
  }

  // ------------------------------------------------ POST /dm/requests/:id/approve

  const PendingNotFound: ApiError := Err(404, NotFound, "Pending request not found")

  predicate PendingForMe(q: DmRequest, convId: string, me: string) {
    q.conversationId == convId && q.to == me && q.status == RequestPending
  }

  /** Sets every row with `id` to approved at `now`. */
  function ApproveRows(requests: seq<DmRequest>, id: string, now: int): (r: seq<DmRequest>)
    ensures |r| == |requests|
    ensures forall i :: 0 <= i < |r| ==>
      r[i] == if requests[i].id == id then requests[i].(status := RequestApproved, resolvedAt := Some(now)) else requests[i]
  {
    seq(|requests|, i requires 0 <= i < |requests| =>
      if requests[i].id == id then requests[i].(status := RequestApproved, resolvedAt := Some(now)) else requests[i])
  }

  /**
   * POST /dm/requests/:conversationId/approve: only the recipient of a
   * pending request of that conversation may approve it; it becomes
   * approved, stamped with `now`, and nothing else changes.
   */
  function Approve(db: Db, me: Option<string>, convId: string, now: int): (r: Run<()>)
    ensures r.result.Ok? <==> me.Some? && exists q :: q in db.requests && PendingForMe(q, convId, me.value)
    ensures r.result.Fail? ==> r.db == db
    ensures me.None? ==> r.result == Fail(Unauthenticated)
    ensures me.Some? && r.result.Fail? ==> r.result == Fail(PendingNotFound)
    ensures r.result.Ok? ==>
      && r.db == db.(requests := r.db.requests)
      && |r.db.requests| == |db.requests|
      && (exists i :: 0 <= i < |db.requests| && PendingForMe(db.requests[i], convId, me.value)
            && r.db.requests[i] == db.requests[i].(status := RequestApproved, resolvedAt := Some(now)))
      && (forall i :: 0 <= i < |db.requests| ==>
            r.db.requests[i] == db.requests[i] || r.db.requests[i].status == RequestApproved)
  {
    if me.None? then Reject(db, Unauthenticated)
    else match Find(db.requests, (q: DmRequest) => PendingForMe(q, convId, me.value))
      case None => Reject(db, PendingNotFound)
      case Some(i) =>
        var updated := ApproveRows(db.requests, db.requests[i].id, now);
        Atomically(db, Run(db.(requests := updated), Ok(())))
  }

  /** With one pending request per conversation, approving twice finds nothing the second time. */
  lemma ApproveTwiceNotFound(db: Db, me: string, convId: string, now: int, later: int)
    requires OnePendingPerConversation(db)
    requires Approve(db, Some(me), convId, now).result.Ok?
    ensures Approve(Approve(db, Some(me), convId, now).db, Some(me), convId, later).result == Fail(PendingNotFound)
  {
    var r := Approve(db, Some(me), convId, now);
    var i :| 0 <= i < |db.requests| && PendingForMe(db.requests[i], convId, me)
      && r.db.requests[i] == db.requests[i].(status := RequestApproved, resolvedAt := Some(now));
    forall j | 0 <= j < |r.db.requests| ensures !PendingForMe(r.db.requests[j], convId, me) {
      if j != i && r.db.requests[j] == db.requests[j] {
        assert !PendingForMe(db.requests[j], convId, me);
      }
    }
  }

  // ---------------------------------------------- POST /dm/conversations/:id/send

  const ConversationNotFound: ApiError := Err(404, NotFound, "Conversation not found")
  const NotParticipant: ApiError := Err(403, Forbidden, "Forbidden")
  const NotApproved: ApiError := Err(403, Forbidden, "Conversation not approved")

  function ConversationIndex(db: Db, convId: string): Option<nat> {
    Find(db.conversations, (c: Conversation) => c.id == convId)
  }

  predicate IsApproved(db: Db, convId: string) {
    Find(db.requests, (q: DmRequest) => q.conversationId == convId && q.status == RequestApproved).Some?
  }

  lemma IsApprovedMeans(db: Db, convId: string)
    ensures IsApproved(db, convId) <==> exists q :: q in db.requests && q.conversationId == convId && q.status == RequestApproved
  {
    if !IsApproved(db, convId) {
      forall q | q in db.requests ensures !(q.conversationId == convId && q.status == RequestApproved) {
        var k :| 0 <= k < |db.requests| && db.requests[k] == q;
      }
    }
  }

  /** Applies `f` to every conversation row with id `convId`. */
  function UpdateConversation(convs: seq<Conversation>, convId: string, f: Conversation -> Conversation): (r: seq<Conversation>)
    ensures |r| == |convs|
    ensures forall i :: 0 <= i < |r| ==> r[i] == if convs[i].id == convId then f(convs[i]) else convs[i]
  {
    seq(|convs|, i requires 0 <= i < |convs| => if convs[i].id == convId then f(convs[i]) else convs[i])
  }

  /** Stamps `me`'s read marker; `first` is the row whose sides decide which marker is `me`'s. */
  function SetMarker(c: Conversation, first: Conversation, me: string, now: int): Conversation {
    if first.a == me then c.(aLastRead := Some(now)) else c.(bLastRead := Some(now))
  }

  /**
   * POST /dm/conversations/:conversationId/send: the conversation must
   * exist (404), include the caller (403) and have an approved request
   * (403). The message is stored and the conversation's last message time
   * and the sender's own read marker both become `now`.
   */
  function Send(db: Db, me: Option<string>, convId: string, body: Json, msgId: string, now: int): (r: Run<()>)
    ensures r.result.Fail? ==> r.db == db
    ensures me.None? ==> r.result == Fail(Unauthenticated)
    ensures me.Some? && Shared.ParseDmSend(body).None? ==> r.result == Fail(Shared.InvalidBody)
    ensures me.Some? && Shared.ParseDmSend(body).Some? ==>
      var k := ConversationIndex(db, convId);
      && (k.None? ==> r.result == Fail(ConversationNotFound))
      && (k.Some? && !Participant(db.conversations[k.value], me.value) ==> r.result == Fail(NotParticipant))
      && (k.Some? && Participant(db.conversations[k.value], me.value) && !IsApproved(db, convId) ==> r.result == Fail(NotApproved))
      && (k.Some? && Participant(db.conversations[k.value], me.value) && IsApproved(db, convId) ==> r.result.Ok?)
    ensures r.result.Ok? ==> |r.db.conversations| == |db.conversations|
    ensures r.result.Ok? ==>
      var k := ConversationIndex(db, convId).value;
      var c := r.db.conversations[k];
      var other := if db.conversations[k].a == me.value then db.conversations[k].b else db.conversations[k].a;
      && r.db.messages == db.messages + [Message(msgId, convId, me.value, Shared.ParseDmSend(body).value.message, now)]
      && c.lastMessageAt == Some(now) && ReadMarker(c, me.value) == Some(now)
      && !HasNew(c, me.value)
      && (other != me.value ==> ReadMarker(c, other) == ReadMarker(db.conversations[k], other))
      && r.db == db.(messages := r.db.messages, conversations := r.db.conversations)
  {
    if me.None? then Reject(db, Unauthenticated)
    else match Shared.ParseDmSend(body)
      case None => Reject(db, Shared.InvalidBody)
      case Some(b) =>
        match ConversationIndex(db, convId)
        case None => Reject(db, ConversationNotFound)
        case Some(k) =>
          var conv := db.conversations[k];
          if !Participant(conv, me.value) then Reject(db, NotParticipant)
          else if !IsApproved(db, convId) then Reject(db, NotApproved)
          else
            var stamp := (c: Conversation) => SetMarker(c.(lastMessageAt := Some(now)), conv, me.value, now);
            var convs := UpdateConversation(db.conversations, convId, stamp);
            Atomically(db, Run(db.(messages := db.messages + [Message(msgId, convId, me.value, b.message, now)],
                                   conversations := convs), Ok(())))
  }

  /** After a send, the conversation has news for the other side exactly when its marker is older than the send. */
  lemma SendIsNewsForTheOtherSide(db: Db, me: string, convId: string, body: Json, msgId: string, now: int)
    requires Send(db, Some(me), convId, body, msgId, now).result.Ok?
    ensures var k := ConversationIndex(db, convId).value;
      var before := db.conversations[k];
      var other := if before.a == me then before.b else before.a;
      var after := Send(db, Some(me), convId, body, msgId, now).db.conversations[k];
      other != me ==> (HasNew(after, other) <==> now > ReadMarker(before, other).GetOr(0))
  {
  }
}
