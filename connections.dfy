/**
 * The process-wide connection manager: which live websocket connections each
 * user has, and the lazily filled table of per-chat locks.
 *
 * A connection and a lock are opaque tokens; a `send_text` call is recorded as
 * one `Delivery` in the log that the sending methods return.
 */
module Connections {

  /** An accepted websocket connection, compared by identity. */
  datatype WebSocket = WebSocket(token: nat)

  /** One `send_text` call: the connection written to and what was written. */
  datatype Delivery<Payload> = Delivery(socket: WebSocket, payload: Payload)

  /** An `asyncio.Lock`; the model keeps only its identity. */
  class ChatLock {
    constructor () {}
  }

  /** No user is mapped to an empty list of connections. */
  predicate NoEmptyLists(conns: map<int, seq<WebSocket>>) {
    forall u :: u in conns ==> conns[u] != []
  }

  /** Distinct chat ids are mapped to distinct locks. */
  predicate Injective(locks: map<int, ChatLock>) {
    forall c, d :: c in locks && d in locks && c != d ==> locks[c] != locks[d]
  }

  /** Every entry of `before` is still in `after`, mapped to the same lock. */
  predicate KeepsLocks(before: map<int, ChatLock>, after: map<int, ChatLock>) {
    forall c :: c in before ==> c in after && after[c] == before[c]
  }

  /** The connections registered for `userId`, none when it has no entry. */
  function ConnectionsOf(conns: map<int, seq<WebSocket>>, userId: int): seq<WebSocket> {
    if userId in conns then conns[userId] else []
  }

  // ---------------------------------------------------------------------------
  // What the sending loops write

  /** One delivery of `payload` per connection, in list order. */
  function Fanout<P>(sockets: seq<WebSocket>, payload: P): seq<Delivery<P>> {
    if sockets == [] then [] else [Delivery(sockets[0], payload)] + Fanout(sockets[1..], payload)
  }

  /** The connections written to, in the order of the log. */
  function Receivers<P>(log: seq<Delivery<P>>): seq<WebSocket> {
    if log == [] then [] else [log[0].socket] + Receivers(log[1..])
  }

  /** What `send_personal_message(payload, userId)` writes. */
  function PersonalSends<P>(conns: map<int, seq<WebSocket>>, userId: int, payload: P): (r: seq<Delivery<P>>)
    ensures |r| == |ConnectionsOf(conns, userId)|
    ensures forall d :: d in r ==> d.payload == payload && d.socket in ConnectionsOf(conns, userId)
  {
    if userId in conns then
      FanoutInOrder(conns[userId], payload);
      FanoutReceivers(conns[userId], payload);
      Fanout(conns[userId], payload)
    else []
  }

  /** What `broadcast(payload, userIds)` writes: the per-user sends, in the order of `userIds`. */
  function BroadcastSends<P>(conns: map<int, seq<WebSocket>>, userIds: seq<int>, payload: P): (r: seq<Delivery<P>>)
    ensures forall d :: d in r ==> d.payload == payload
    ensures userIds == [] ==> r == []
  {
    if userIds == [] then []
    else PersonalSends(conns, userIds[0], payload) + BroadcastSends(conns, userIds[1..], payload)
  }

  lemma {:induction false} FanoutAppend<P>(s: seq<WebSocket>, t: seq<WebSocket>, payload: P)
    ensures Fanout(s + t, payload) == Fanout(s, payload) + Fanout(t, payload)
  {
    if s != [] {
      assert (s + t)[1..] == s[1..] + t;
      FanoutAppend(s[1..], t, payload);
    } else {
      assert s + t == t;
    }
  }

  /** The k-th write goes to the k-th connection, and there is one write per connection. */
  lemma {:induction false} FanoutInOrder<P>(sockets: seq<WebSocket>, payload: P)
    ensures |Fanout(sockets, payload)| == |sockets|
    ensures forall k :: 0 <= k < |sockets| ==> Fanout(sockets, payload)[k] == Delivery(sockets[k], payload)
  {
    if sockets != [] {
      FanoutInOrder(sockets[1..], payload);
    }
  }

  /** Exactly the list's connections are written to, each as often as it is listed, all with `payload`. */
  lemma {:induction false} FanoutReceivers<P>(sockets: seq<WebSocket>, payload: P)
    ensures Receivers(Fanout(sockets, payload)) == sockets
    ensures forall d :: d in Fanout(sockets, payload) ==> d.payload == payload && d.socket in sockets
  {
    if sockets != [] {
      FanoutReceivers(sockets[1..], payload);
      assert Fanout(sockets, payload)[1..] == Fanout(sockets[1..], payload);
    }
  }

  /**
   * A personal send reaches the user's registered connections exactly, in
   * list order, and nothing at all for a user without an entry.
   */
  lemma PersonalSendsReachOnlyThatUser<P>(conns: map<int, seq<WebSocket>>, userId: int, payload: P)
    ensures Receivers(PersonalSends(conns, userId, payload)) == ConnectionsOf(conns, userId)
    ensures forall d :: d in PersonalSends(conns, userId, payload) ==>
              d.payload == payload && d.socket in ConnectionsOf(conns, userId)
    ensures userId !in conns ==> PersonalSends(conns, userId, payload) == []
  {
    if userId in conns {
      FanoutReceivers(conns[userId], payload);
    }
  }

  lemma {:induction false} BroadcastSendsAppend<P>(conns: map<int, seq<WebSocket>>, us: seq<int>, vs: seq<int>, payload: P)
    ensures BroadcastSends(conns, us + vs, payload) == BroadcastSends(conns, us, payload) + BroadcastSends(conns, vs, payload)
  {
    if us == [] {
      assert us + vs == vs;
    } else {
      assert (us + vs)[1..] == us[1..] + vs;
      BroadcastSendsAppend(conns, us[1..], vs, payload);
    }
  }

  /** A broadcast writes only to connections of the listed users, and only `payload`. */
  lemma {:induction false} BroadcastReachesOnlyListed<P>(conns: map<int, seq<WebSocket>>, userIds: seq<int>, payload: P)
    ensures forall d :: d in BroadcastSends(conns, userIds, payload) ==>
              d.payload == payload && exists u :: u in userIds && d.socket in ConnectionsOf(conns, u)
  {
    if userIds != [] {
      PersonalSendsReachOnlyThatUser(conns, userIds[0], payload);
      BroadcastReachesOnlyListed(conns, userIds[1..], payload);
      forall d | d in BroadcastSends(conns, userIds, payload)
        ensures d.payload == payload && exists u :: u in userIds && d.socket in ConnectionsOf(conns, u)
      {
        if d in PersonalSends(conns, userIds[0], payload) {
          assert userIds[0] in userIds;
        } else {
          assert d in BroadcastSends(conns, userIds[1..], payload);
          var u :| u in userIds[1..] && d.socket in ConnectionsOf(conns, u);
          assert u in userIds;
        }
      }
    }
  }

  // ---------------------------------------------------------------------------
  // list.remove

  /** `list.remove(x)`: drops the first occurrence of `x`. */
  function RemoveFirst(s: seq<WebSocket>, x: WebSocket): (r: seq<WebSocket>)
    ensures x in s ==> |r| == |s| - 1
    ensures x !in s ==> r == s
  {
    if s == [] then []
    else if s[0] == x then s[1..]
    else [s[0]] + RemoveFirst(s[1..], x)
  }

  /** The position of the first occurrence of `x`. */
  function FirstIndexOf(s: seq<WebSocket>, x: WebSocket): (k: nat)
    requires x in s
    ensures k < |s| && s[k] == x && x !in s[..k]
  {
    if s[0] == x then 0 else 1 + FirstIndexOf(s[1..], x)
  }

  /** Removing a listed connection cuts out its first occurrence and keeps the rest in order. */
  lemma {:induction false} RemoveFirstCutsFirst(s: seq<WebSocket>, x: WebSocket)
    requires x in s
    ensures RemoveFirst(s, x) == s[..FirstIndexOf(s, x)] + s[FirstIndexOf(s, x) + 1..]
  {
    if s[0] != x {
      var k := FirstIndexOf(s[1..], x);
      RemoveFirstCutsFirst(s[1..], x);
      assert s[..k + 1] == [s[0]] + s[1..][..k];
      assert s[k + 2..] == s[1..][k + 1..];
    }
  }

  /**
   * Removing a listed connection drops exactly one occurrence of it; an
   * unlisted one leaves the list as it is.
   */
  lemma RemoveFirstDropsOne(s: seq<WebSocket>, x: WebSocket)
    ensures x in s ==> multiset(RemoveFirst(s, x)) == multiset(s) - multiset{x} && |RemoveFirst(s, x)| == |s| - 1
    ensures x !in s ==> RemoveFirst(s, x) == s
  {
    if x in s {
      RemoveFirstCutsFirst(s, x);
      CutOneMultiset(s, FirstIndexOf(s, x));
    }
  }

  lemma CutOneMultiset(s: seq<WebSocket>, k: nat)
    requires k < |s|
    ensures multiset(s[..k] + s[k + 1..]) == multiset(s) - multiset{s[k]}
    ensures |s[..k] + s[k + 1..]| == |s| - 1
  {
    assert s == s[..k] + [s[k]] + s[k + 1..];
  }

  /** Removing a connection that was appended behind other ones gives back the list before the append. */
  lemma {:induction false} RemoveFirstAppended(s: seq<WebSocket>, x: WebSocket)
    requires x !in s
    ensures RemoveFirst(s + [x], x) == s
  {
    if s != [] {
      assert (s + [x])[1..] == s[1..] + [x];
      RemoveFirstAppended(s[1..], x);
    }
  }

  /**
   * Connecting a websocket the user did not hold and then disconnecting it
   * leaves the registry as it was, with no emptied entry left behind.
   */
  lemma ConnectDisconnectRestores(conns: map<int, seq<WebSocket>>, userId: int, websocket: WebSocket)
    requires NoEmptyLists(conns) && websocket !in ConnectionsOf(conns, userId)
    ensures var during := conns[userId := ConnectionsOf(conns, userId) + [websocket]];
            var rest := RemoveFirst(during[userId], websocket);
            (if rest == [] then during - {userId} else during[userId := rest]) == conns
  {
    RemoveFirstAppended(ConnectionsOf(conns, userId), websocket);
  }

  // ---------------------------------------------------------------------------
  // The manager

  class ConnectionManager<Payload> {
    var activeConnections: map<int, seq<WebSocket>>
    var chatLocks: map<int, ChatLock>

    ghost predicate Valid()
      reads this
    {
      NoEmptyLists(activeConnections) && Injective(chatLocks)
    }

    /** A fresh manager has no connections and no locks. */
    constructor ()
      ensures Valid()
      ensures activeConnections == map[] && chatLocks == map[]
    {
      activeConnections := map[];
      chatLocks := map[];
    }

    /** `connect`: appends the connection to the user's list, creating the list if absent. */
    method Connect(userId: int, websocket: WebSocket)
      requires Valid()
      modifies this
      ensures Valid()
      ensures activeConnections == old(activeConnections)[userId := ConnectionsOf(old(activeConnections), userId) + [websocket]]
      ensures chatLocks == old(chatLocks)
    {
      if userId !in activeConnections {
        activeConnections := activeConnections[userId := []];
      }
      activeConnections := activeConnections[userId := activeConnections[userId] + [websocket]];
    }

    /**
     * `disconnect`: a user without an entry is left alone; otherwise the first
     * occurrence of the connection is removed and an emptied entry is deleted.
     * `raised` is the `ValueError` of `list.remove` for a connection that is not
     * in the user's list, which leaves everything as it was.
     */
    method Disconnect(userId: int, websocket: WebSocket) returns (raised: bool)
      requires Valid()
      modifies this
      ensures Valid()
      ensures raised <==> userId in old(activeConnections) && websocket !in old(activeConnections)[userId]
      ensures raised || userId !in old(activeConnections) ==> activeConnections == old(activeConnections)
      ensures !raised && userId in old(activeConnections) ==>
                var rest := RemoveFirst(old(activeConnections)[userId], websocket);
                activeConnections == if rest == [] then old(activeConnections) - {userId}
                                     else old(activeConnections)[userId := rest]
      ensures chatLocks == old(chatLocks)
    {
      raised := false;
      if userId in activeConnections {
        var list := activeConnections[userId];
        if websocket !in list {
          raised := true;
          return;
        }
        activeConnections := activeConnections[userId := RemoveFirst(list, websocket)];
        if activeConnections[userId] == [] {
          activeConnections := activeConnections - {userId};
        }
      }
    }

    /** `send_personal_message`: one write per registered connection of the user, in list order. */
    method SendPersonalMessage(message: Payload, userId: int) returns (sent: seq<Delivery<Payload>>)
      ensures sent == PersonalSends(activeConnections, userId, message)
    {
      sent := [];
      if userId in activeConnections {
        var sockets := activeConnections[userId];
        for i := 0 to |sockets|
          invariant sent == Fanout(sockets[..i], message)
        {
          FanoutAppend(sockets[..i], [sockets[i]], message);
          assert sockets[..i + 1] == sockets[..i] + [sockets[i]];
          sent := sent + [Delivery(sockets[i], message)];
        }
        assert sockets[..|sockets|] == sockets;
      }
    }

    /** `broadcast`: the personal sends to each listed user, in the order of the list. */
    method Broadcast(message: Payload, userIds: seq<int>) returns (sent: seq<Delivery<Payload>>)
      ensures sent == BroadcastSends(activeConnections, userIds, message)
    {
      sent := [];
      for i := 0 to |userIds|
        invariant sent == BroadcastSends(activeConnections, userIds[..i], message)
      {
        var more := SendPersonalMessage(message, userIds[i]);
        BroadcastSendsAppend(activeConnections, userIds[..i], [userIds[i]], message);
        assert userIds[..i + 1] == userIds[..i] + [userIds[i]];
        sent := sent + more;
      }
      assert userIds[..|userIds|] == userIds;
    }

    /**
     * `get_chat_lock`: the lock already stored for the chat, or a fresh lock
     * stored on first reference; existing entries are never replaced.
     */
    method GetChatLock(chatId: int) returns (lock: ChatLock)
      requires Valid()
      modifies this
      ensures Valid()
      ensures activeConnections == old(activeConnections)
      ensures chatId in old(chatLocks) ==> lock == old(chatLocks)[chatId] && chatLocks == old(chatLocks)
      ensures chatId !in old(chatLocks) ==> fresh(lock) && chatLocks == old(chatLocks)[chatId := lock]
      ensures KeepsLocks(old(chatLocks), chatLocks) && chatId in chatLocks && chatLocks[chatId] == lock
    {
      if chatId !in chatLocks {
        var created := new ChatLock();
        chatLocks := chatLocks[chatId := created];
      }
      lock := chatLocks[chatId];
    }
  }

  /**
   * A scenario, not part of the manager: after a user's only connection
   * disconnects, the user has no entry and a send to it writes nothing.
   */
  method DisconnectCleanup(userId: int, websocket: WebSocket, payload: int)
  {
    var manager := new ConnectionManager<int>();
    manager.Connect(userId, websocket);
    var raised := manager.Disconnect(userId, websocket);
    assert !raised && userId !in manager.activeConnections;
    var sent := manager.SendPersonalMessage(payload, userId);
    assert sent == [];
  }
}
