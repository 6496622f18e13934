/**
 * The chat endpoints over an in-memory database. Each method changes the
 * tables step by step, as the route does through its session, and is proved
 * to leave them as the matching rule of `ChatRules` says, with the same answer.
 *
 * The connection manager is passed in; what a route pushes to websockets is
 * returned as the log of deliveries that `send_personal_message` performed.
 */
module ChatRoutes {
  import opened Wrappers
  import opened Models
  import opened Keys
  import opened ChatRules
  import opened Connections

  /** The messages stored by a websocket session that receives `frames`, frame `k` at `clock[k]`. */
  function SessionSpec(t: Tables, digest: string -> string, userId: int, chatId: int, frames: seq<Option<string>>, clock: seq<int>): (s: Step<seq<Message>>)
    requires |clock| == |frames|
    ensures WellFormed(t) ==> WellFormed(s.tables)
    decreases |frames|
  {
    if frames == [] then Step(t, [])
    else
      var n := |frames| - 1;
      var before := SessionSpec(t, digest, userId, chatId, frames[..n], clock[..n]);
      var last := ReceiveFrameSpec(before.tables, digest, userId, chatId, frames[n], clock[n]);
      Step(last.tables, before.result + (if last.result.Some? then [last.result.value] else []))
  }

  /** What a session pushes: each stored message, in turn, to the sender's connections. */
  function SessionSends(conns: map<int, seq<WebSocket>>, userId: int, stored: seq<Message>): (r: seq<Delivery<Frame>>)
    ensures |r| == |stored| * |ConnectionsOf(conns, userId)|
    ensures forall d :: d in r ==> d.socket in ConnectionsOf(conns, userId) && exists m :: m in stored && d.payload == MessageFrame(m)
  {
    if stored == [] then []
    else
      var n := |stored| - 1;
      var before := SessionSends(conns, userId, stored[..n]);
      var last := PersonalSends(conns, userId, MessageFrame(stored[n]));
      SessionSendsExtend(ConnectionsOf(conns, userId), stored, before, last);
      before + last
  }

  /** The deliveries of a shorter session, followed by those of its last message, come from the whole session. */
  lemma SessionSendsExtend(sockets: seq<WebSocket>, stored: seq<Message>, before: seq<Delivery<Frame>>, last: seq<Delivery<Frame>>)
    requires stored != []
    requires |before| == (|stored| - 1) * |sockets| && |last| == |sockets|
    requires forall d :: d in before ==> d.socket in sockets && exists m :: m in stored[..|stored| - 1] && d.payload == MessageFrame(m)
    requires forall d :: d in last ==> d.payload == MessageFrame(stored[|stored| - 1]) && d.socket in sockets
    ensures |before + last| == |stored| * |sockets|
    ensures forall d :: d in before + last ==> d.socket in sockets && exists m :: m in stored && d.payload == MessageFrame(m)
  {
    assert (|stored| - 1) * |sockets| + |sockets| == |stored| * |sockets|;
    forall d | d in before + last
      ensures d.socket in sockets && exists m :: m in stored && d.payload == MessageFrame(m)
    {
      if d in before {
        var m :| m in stored[..|stored| - 1] && d.payload == MessageFrame(m);
        assert m in stored;
      } else {
        assert stored[|stored| - 1] in stored;
      }
    }
  }

  /** Some frame carries a non-empty text, so the session asks for the chat's lock. */
  predicate TakesLock(frames: seq<Option<string>>) {
    exists k :: 0 <= k < |frames| && frames[k].Some? && frames[k].value != ""
  }

  lemma TakesLockStep(frames: seq<Option<string>>, i: nat)
    requires i < |frames|
    ensures TakesLock(frames[..i + 1]) <==> TakesLock(frames[..i]) || (frames[i].Some? && frames[i].value != "")
  {
    if TakesLock(frames[..i + 1]) {
      var k :| 0 <= k < i + 1 && frames[..i + 1][k].Some? && frames[..i + 1][k].value != "";
      if k < i {
        assert frames[..i][k] == frames[k];
      }
    }
    if TakesLock(frames[..i]) {
      var k :| 0 <= k < i && frames[..i][k].Some? && frames[..i][k].value != "";
      assert frames[..i + 1][k] == frames[k];
    }
    if frames[i].Some? && frames[i].value != "" {
      assert frames[..i + 1][i] == frames[i];
    }
  }

  /** One more frame extends the session by one `ReceiveFrameSpec` step. */
  lemma SessionSpecStep(t: Tables, digest: string -> string, userId: int, chatId: int, frames: seq<Option<string>>, clock: seq<int>, i: nat)
    requires |clock| == |frames| && i < |frames|
    ensures var before := SessionSpec(t, digest, userId, chatId, frames[..i], clock[..i]);
            var last := ReceiveFrameSpec(before.tables, digest, userId, chatId, frames[i], clock[i]);
            SessionSpec(t, digest, userId, chatId, frames[..i + 1], clock[..i + 1]) ==
              Step(last.tables, before.result + (if last.result.Some? then [last.result.value] else []))
  {
    assert frames[..i + 1][..i] == frames[..i] && clock[..i + 1][..i] == clock[..i];
  }

  lemma SessionSendsStep(conns: map<int, seq<WebSocket>>, userId: int, stored: seq<Message>, m: Message)
    ensures SessionSends(conns, userId, stored + [m]) == SessionSends(conns, userId, stored) + PersonalSends(conns, userId, MessageFrame(m))
  {
    assert (stored + [m])[..|stored|] == stored;
  }

  /** A text sent twice in a row over one connection is stored once, by the first frame. */
  lemma SessionRepeatStoredOnce(t: Tables, digest: string -> string, userId: int, chatId: int, text: Option<string>, now: int, later: int)
    ensures |SessionSpec(t, digest, userId, chatId, [text, text], [now, later]).result| <= 1
    ensures SessionSpec(t, digest, userId, chatId, [text, text], [now, later]) ==
              var first := ReceiveFrameSpec(t, digest, userId, chatId, text, now);
              Step(first.tables, if first.result.Some? then [first.result.value] else [])
  {
    var first := ReceiveFrameSpec(t, digest, userId, chatId, text, now);
    var frames, clock := [text, text], [now, later];
    assert frames[..0] == [] && clock[..0] == [];
    var firstStored := if first.result.Some? then [first.result.value] else [];
    assert SessionSpec(t, digest, userId, chatId, [], []) == Step(t, []);
    SessionSpecStep(t, digest, userId, chatId, frames, clock, 0);
    assert SessionSpec(t, digest, userId, chatId, frames[..1], clock[..1]) == Step(first.tables, [] + firstStored);
    FrameResubmissionSkipped(t, digest, userId, chatId, text, now, later);
    SessionSpecStep(t, digest, userId, chatId, frames, clock, 1);
    assert frames[..2] == frames && clock[..2] == clock;
    assert [] + firstStored == firstStored && firstStored + [] == firstStored;
  }

  class Store {
    var users: seq<User>
    var chats: seq<Chat>
    var groups: seq<Group>
    var messages: seq<Message>
    const digest: string -> string

    function Snapshot(): Tables
      reads this
    {
      Tables(users, chats, groups, messages)
    }

    ghost predicate Valid()
      reads this
    {
      WellFormed(Snapshot())
    }

    /** A database holding the registered `users` and nothing else. */
    constructor (digest: string -> string, users: seq<User>)
      requires DistinctUserIds(users)
      ensures Valid()
      ensures Snapshot() == Tables(users, [], [], []) && this.digest == digest
    {
      this.digest := digest;
      this.users := users;
      chats := [];
      groups := [];
      messages := [];
    }

    /** `POST /message` by `sender`; `now` is `utcnow()` at the insert. */
    method CreateMessage(sender: int, req: MessageCreate, now: int) returns (r: Response<Message>)
      requires Valid()
      modifies this
      ensures Valid()
      ensures Snapshot() == CreateMessageSpec(old(Snapshot()), digest, sender, req, now).tables
      ensures r == CreateMessageSpec(old(Snapshot()), digest, sender, req, now).result
    {
      var target := FindOrCreateChat(sender, req);
      if target.Err400? {
        return Err400(target.detail);
      } else if target.Err404? {
        return Err404(target.detail);
      }
      var chatId := target.value;
      var key := digest(DedupSource(sender, chatId, req.text));
      assert key == DedupKey(digest, sender, chatId, req.text);
      if MessageWithKey(messages, key).Some? {
        return Err400(MessageExists);
      }
      var message := NewMessage(|messages| + 1, chatId, sender, req.text, now, key);
      messages := messages + [message];
      r := Ok(message);
    }

    /**
     * The chat resolution of `create_message`: the chat id the message goes
     * to, after the private chat it needs has been added, or the error.
     */
    method FindOrCreateChat(sender: int, req: MessageCreate) returns (r: Response<int>)
      modifies this
      ensures users == old(users) && groups == old(groups) && messages == old(messages)
      ensures var res := ResolveChat(old(chats), sender, req);
              && (res.Ok? ==> r == Ok(res.value.chatId) && chats == res.value.chats)
              && (res.Err400? ==> r == Err400(res.detail) && chats == old(chats))
              && (res.Err404? ==> r == Err404(res.detail) && chats == old(chats))
    {
      if req.chatId.Some? {
        var found := ChatWithId(chats, req.chatId.value);
        if found.Some? {
          return Ok(chats[found.value].id);
        }
        if !Given(req.recipientId) {
          return Err404(ChatNotFound);
        }
        var chat := NewChat(|chats| + 1, Some(PrivateChatName(sender, req.recipientId.value)), PrivateChat);
        chats := chats + [chat];
        return Ok(chat.id);
      }
      if !Given(req.recipientId) {
        return Err400(ChatOrRecipientRequired);
      }
      var name := PrivateChatName(sender, req.recipientId.value);
      var found := PrivateChatNamed(chats, name);
      if found.Some? {
        return Ok(chats[found.value].id);
      }
      var chat := NewChat(|chats| + 1, Some(name), PrivateChat);
      chats := chats + [chat];
      r := Ok(chat.id);
    }

    /**
     * One pass of the websocket loop for user `userId` on chat `chatId`, for a
     * frame whose `text` field is `text`. A non-empty text takes the chat's lock
     * (creating it on first use) around the dedup check and the insert; a
     * stored message is pushed to the sender's own connections.
     */
    method ReceiveFrame(manager: ConnectionManager<Frame>, userId: int, chatId: int, text: Option<string>, now: int)
      returns (stored: Option<Message>, sent: seq<Delivery<Frame>>)
      requires Valid() && manager.Valid()
      modifies this, manager
      ensures Valid() && manager.Valid()
      ensures Snapshot() == ReceiveFrameSpec(old(Snapshot()), digest, userId, chatId, text, now).tables
      ensures stored == ReceiveFrameSpec(old(Snapshot()), digest, userId, chatId, text, now).result
      ensures manager.activeConnections == old(manager.activeConnections)
      ensures text.None? || text == Some("") ==> manager.chatLocks == old(manager.chatLocks)
      ensures text.Some? && text.value != "" ==>
                KeepsLocks(old(manager.chatLocks), manager.chatLocks) && manager.chatLocks.Keys == old(manager.chatLocks).Keys + {chatId}
      ensures KeepsLocks(old(manager.chatLocks), manager.chatLocks)
      ensures sent == if stored.Some? then PersonalSends(manager.activeConnections, userId, MessageFrame(stored.value)) else []
    {
      if text.None? || text.value == "" {
        return None, [];
      }
      var key := digest(DedupSource(userId, chatId, text.value));
      var lock := manager.GetChatLock(chatId);
      if MessageWithKey(messages, key).Some? {
        return None, [];
      }
      var message := NewMessage(|messages| + 1, chatId, userId, text.value, now, key);
      messages := messages + [message];
      stored := Some(message);
      sent := manager.SendPersonalMessage(MessageFrame(message), userId);
    }

    /**
     * `websocket_endpoint`: `subject` is the decoded token's user id (absent
     * when the token is invalid or has no subject), `frames` the text fields of
     * the frames received before the client disconnects, and `clock[k]` the
     * time frame `k` is stored at. An invalid token closes the socket with
     * policy violation (1008) before anything is registered.
     */
    method WebsocketEndpoint(manager: ConnectionManager<Frame>, subject: Option<int>, chatId: int, websocket: WebSocket,
                             frames: seq<Option<string>>, clock: seq<int>)
      returns (closedForPolicy: bool, sent: seq<Delivery<Frame>>)
      requires Valid() && manager.Valid() && |clock| == |frames|
      modifies this, manager
      ensures Valid() && manager.Valid()
      ensures closedForPolicy <==> subject.None?
      ensures subject.None? ==> Snapshot() == old(Snapshot()) && sent == [] && manager.activeConnections == old(manager.activeConnections)
      ensures subject.Some? ==>
                var userId := subject.value;
                var session := SessionSpec(old(Snapshot()), digest, userId, chatId, frames, clock);
                && Snapshot() == session.tables
                && sent == SessionSends(old(manager.activeConnections)[userId := ConnectionsOf(old(manager.activeConnections), userId) + [websocket]],
                                        userId, session.result)
      ensures subject.Some? && websocket !in ConnectionsOf(old(manager.activeConnections), subject.value) ==>
                manager.activeConnections == old(manager.activeConnections)
      ensures subject.None? ==> manager.chatLocks == old(manager.chatLocks)
      ensures subject.Some? ==>
                manager.chatLocks.Keys == old(manager.chatLocks).Keys + (if TakesLock(frames) then {chatId} else {})
      ensures KeepsLocks(old(manager.chatLocks), manager.chatLocks)
    {
      if subject.None? {
        return true, [];
      }
      closedForPolicy := false;
      var userId := subject.value;
      ghost var conns0 := manager.activeConnections;
      manager.Connect(userId, websocket);
      sent := ReceiveFrames(manager, userId, chatId, frames, clock);
      var raised := manager.Disconnect(userId, websocket);
      if websocket !in ConnectionsOf(conns0, userId) {
        ConnectDisconnectRestores(conns0, userId, websocket);
      }
    }

    /** The receive loop of `websocket_endpoint`, over the frames that arrive before the disconnect. */
    method ReceiveFrames(manager: ConnectionManager<Frame>, userId: int, chatId: int, frames: seq<Option<string>>, clock: seq<int>)
      returns (sent: seq<Delivery<Frame>>)
      requires Valid() && manager.Valid() && |clock| == |frames|
      modifies this, manager
      ensures Valid() && manager.Valid()
      ensures Snapshot() == SessionSpec(old(Snapshot()), digest, userId, chatId, frames, clock).tables
      ensures sent == SessionSends(manager.activeConnections, userId, SessionSpec(old(Snapshot()), digest, userId, chatId, frames, clock).result)
      ensures manager.activeConnections == old(manager.activeConnections)
      ensures KeepsLocks(old(manager.chatLocks), manager.chatLocks)
      ensures manager.chatLocks.Keys == old(manager.chatLocks).Keys + (if TakesLock(frames) then {chatId} else {})
    {
      ghost var t0 := Snapshot();
      ghost var locks0 := manager.chatLocks;
      ghost var conns := manager.activeConnections;
      sent := [];
      for i := 0 to |frames|
        invariant Valid() && manager.Valid()
        invariant manager.activeConnections == conns
        invariant KeepsLocks(locks0, manager.chatLocks)
        invariant manager.chatLocks.Keys == locks0.Keys + (if TakesLock(frames[..i]) then {chatId} else {})
        invariant Snapshot() == SessionSpec(t0, digest, userId, chatId, frames[..i], clock[..i]).tables
        invariant sent == SessionSends(conns, userId, SessionSpec(t0, digest, userId, chatId, frames[..i], clock[..i]).result)
      {
        ghost var before := SessionSpec(t0, digest, userId, chatId, frames[..i], clock[..i]);
        var stored, more := ReceiveFrame(manager, userId, chatId, frames[i], clock[i]);
        assert stored == ReceiveFrameSpec(before.tables, digest, userId, chatId, frames[i], clock[i]).result;
        SessionSpecStep(t0, digest, userId, chatId, frames, clock, i);
        TakesLockStep(frames, i);
        ghost var after := SessionSpec(t0, digest, userId, chatId, frames[..i + 1], clock[..i + 1]);
        if stored.Some? {
          assert after.result == before.result + [stored.value];
          assert more == PersonalSends(conns, userId, MessageFrame(stored.value));
          SessionSendsStep(conns, userId, before.result, stored.value);
        } else {
          assert after.result == before.result;
        }
        sent := sent + more;
      }
      assert frames[..|frames|] == frames && clock[..|clock|] == clock;
    }

    /**
     * `mark_message_read`: an unknown id answers 404; otherwise the message's
     * `read` flag is set and a notification tagged "message_read" is pushed to
     * its sender's connections.
     */
    method MarkMessageRead(manager: ConnectionManager<Frame>, messageId: int) returns (r: Response<Message>, sent: seq<Delivery<Frame>>)
      requires Valid()
      modifies this
      ensures Valid()
      ensures Snapshot() == MarkReadSpec(old(Snapshot()), messageId).tables
      ensures r == MarkReadSpec(old(Snapshot()), messageId).result
      ensures sent == if r.Ok? then PersonalSends(manager.activeConnections, r.value.senderId, ReadNotification(r.value)) else []
    {
      var found := MessageWithId(messages, messageId);
      if found.None? {
        return Err404(MessageNotFound), [];
      }
      var message := messages[found.value].(read := true);
      messages := messages[found.value := message];
      sent := manager.SendPersonalMessage(ReadNotification(message), message.senderId);
      r := Ok(message);
    }

    /** `POST /group` by `creator`. */
    method CreateGroup(creator: int, req: GroupCreate) returns (out: GroupOut)
      requires Valid()
      modifies this
      ensures Valid()
      ensures Snapshot() == CreateGroupSpec(old(Snapshot()), creator, req).tables
      ensures out == CreateGroupSpec(old(Snapshot()), creator, req).result
    {
      var chat := NewChat(|chats| + 1, Some(req.name), GroupChat);
      chats := chats + [chat];
      var participants := SelectUsers(users, req.participantIds);
      if creator !in participants {
        participants := participants + [creator];
      }
      var group := Group(|groups| + 1, req.name, creator, chat.id, participants);
      groups := groups + [group];
      assert Snapshot() == CreateGroupSpec(old(Snapshot()), creator, req).tables;
      out := GroupOut(group.id, group.name, group.creatorId, group.chatId, group.participants);
    }
  }
}
