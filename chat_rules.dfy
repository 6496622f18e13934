/**
 * What each chat endpoint does to the tables and what it answers, as pure
 * functions of the tables before the call, and the properties of those rules.
 *
 * The message digest (`hashlib.md5(...).hexdigest()`) is a parameter `digest`
 * about which nothing is assumed: equal sources give equal keys and no more.
 */
module ChatRules {
  import opened Wrappers
  import opened Models
  import opened Keys

  /** The body of `POST /message`. */
  datatype MessageCreate = MessageCreate(chatId: Option<int>, recipientId: Option<int>, text: string)

  /** The body of `POST /group`. */
  datatype GroupCreate = GroupCreate(name: string, participantIds: seq<int>)

  /** The answer of `POST /group`. */
  datatype GroupOut = GroupOut(id: int, name: string, creatorId: int, chatId: int, participantIds: seq<int>)

  /** An endpoint's answer: a value, or an `HTTPException` with status 400 or 404. */
  datatype Response<T> = Ok(value: T) | Err400(detail: string) | Err404(detail: string)

  /** The tables after a call, and what the call answered. */
  datatype Step<T> = Step(tables: Tables, result: T)

  /** The chat a submission goes to, and the chat table once it is resolved. */
  datatype ChatTarget = ChatTarget(chats: seq<Chat>, chatId: int)

  /** The JSON object pushed to a websocket. */
  datatype Frame = Frame(id: int, chatId: int, senderId: int, text: string, timestamp: int, read: bool, notification: Option<string>)

  const ChatOrRecipientRequired := "Either chat_id or recipient_id must be provided"
  const ChatNotFound := "Chat not found"
  const MessageExists := "Message already exists"
  const MessageNotFound := "Message not found"
  const MessageReadTag := "message_read"

  function MessageFrame(m: Message): Frame {
    Frame(m.id, m.chatId, m.senderId, m.text, m.timestamp, m.read, None)
  }

  function ReadNotification(m: Message): Frame {
    Frame(m.id, m.chatId, m.senderId, m.text, m.timestamp, m.read, Some(MessageReadTag))
  }

  /** `recipient_id` is tested for truth: absent and `0` both count as not given. */
  predicate Given(id: Option<int>) {
    id.Some? && id.value != 0
  }

  // ---------------------------------------------------------------------------
  // Queries (`select ... .first()`, rows in insertion order)

  function FirstIndex<T>(s: seq<T>, p: T -> bool): (r: Option<nat>)
    ensures r.Some? ==> r.value < |s| && p(s[r.value]) && forall k :: 0 <= k < r.value ==> !p(s[k])
    ensures r.None? ==> forall k :: 0 <= k < |s| ==> !p(s[k])
  {
    if s == [] then None
    else if p(s[0]) then Some(0)
    else match FirstIndex(s[1..], p)
      case None => None
      case Some(k) => Some(k + 1)
  }

  function ChatWithId(chats: seq<Chat>, id: int): Option<nat> {
    FirstIndex(chats, (c: Chat) => c.id == id)
  }

  predicate IsPrivateNamed(c: Chat, name: string) {
    c.name == Some(name) && c.kind == PrivateChat
  }

  /**
   * The private chat called `name`. The query has no `order_by`; the model
   * takes the oldest matching row.
   */
  function PrivateChatNamed(chats: seq<Chat>, name: string): (r: Option<nat>)
    ensures r.Some? ==> r.value < |chats| && IsPrivateNamed(chats[r.value], name)
                        && forall k :: 0 <= k < r.value ==> !IsPrivateNamed(chats[k], name)
    ensures r.None? <==> forall k :: 0 <= k < |chats| ==> !IsPrivateNamed(chats[k], name)
  {
    FirstIndex(chats, (c: Chat) => IsPrivateNamed(c, name))
  }

  function MessageWithKey(messages: seq<Message>, key: string): Option<nat> {
    FirstIndex(messages, (m: Message) => m.dedupKey == key)
  }

  function MessageWithId(messages: seq<Message>, id: int): Option<nat> {
    FirstIndex(messages, (m: Message) => m.id == id)
  }

  /** The first match in a table is still the first match once rows are appended. */
  lemma FirstIndexAppended<T>(s: seq<T>, later: seq<T>, p: T -> bool)
    requires FirstIndex(s, p).Some?
    ensures FirstIndex(s + later, p) == FirstIndex(s, p)
  {
    var k := FirstIndex(s, p).value;
    assert (s + later)[k] == s[k];
    assert forall j :: 0 <= j < k ==> (s + later)[j] == s[j];
  }

  /** Where no row of a table matches, the first match of an extension lies in the appended rows. */
  lemma FirstIndexPastEnd<T>(s: seq<T>, x: T, p: T -> bool)
    requires FirstIndex(s, p).None? && p(x)
    ensures FirstIndex(s + [x], p) == Some(|s|)
  {
    assert (s + [x])[|s|] == x;
    assert forall j :: 0 <= j < |s| ==> (s + [x])[j] == s[j];
  }

  /** With positional primary keys, looking a chat up by id is indexing. */
  lemma ChatWithIdPositional(chats: seq<Chat>, id: int)
    requires forall k :: 0 <= k < |chats| ==> chats[k].id == k + 1
    ensures ChatWithId(chats, id) == if 1 <= id <= |chats| then Some(id - 1) else None
  {
    if 1 <= id <= |chats| {
      assert chats[id - 1].id == id;
    }
  }

  /** At most one private chat carries any given name. */
  predicate UniquePrivateNames(chats: seq<Chat>) {
    forall i, j :: 0 <= i < j < |chats| && chats[i].kind == PrivateChat && chats[j].kind == PrivateChat && chats[i].name.Some?
      ==> chats[i].name != chats[j].name
  }

  // ---------------------------------------------------------------------------
  // POST /message

  /** The private chat created for `sender` and `recipient`, as the next chat (id `|chats| + 1`). */
  function CanonicalChat(chats: seq<Chat>, sender: int, recipient: int): Chat {
    NewChat(|chats| + 1, Some(PrivateChatName(sender, recipient)), PrivateChat)
  }

  /**
   * Chat resolution: an existing explicit chat; for an unknown explicit chat
   * with a recipient, a new private chat (without looking one up); without an
   * explicit chat, the first private chat with the canonical name, created if
   * there is none.
   */
  function ResolveChat(chats: seq<Chat>, sender: int, req: MessageCreate): (r: Response<ChatTarget>)
    ensures r.Err400? <==> req.chatId.None? && !Given(req.recipientId)
    ensures r.Err404? <==> req.chatId.Some? && ChatWithId(chats, req.chatId.value).None? && !Given(req.recipientId)
    ensures r.Ok? ==> r.value.chats == chats || (Given(req.recipientId) && r.value.chats == chats + [CanonicalChat(chats, sender, req.recipientId.value)])
  {
    if req.chatId.Some? then
      match ChatWithId(chats, req.chatId.value)
      case Some(k) => Ok(ChatTarget(chats, chats[k].id))
      case None =>
        if Given(req.recipientId) then
          var c := CanonicalChat(chats, sender, req.recipientId.value);
          Ok(ChatTarget(chats + [c], c.id))
        else
          Err404(ChatNotFound)
    else if !Given(req.recipientId) then
      Err400(ChatOrRecipientRequired)
    else
      match PrivateChatNamed(chats, PrivateChatName(sender, req.recipientId.value))
      case Some(k) => Ok(ChatTarget(chats, chats[k].id))
      case None =>
        var c := CanonicalChat(chats, sender, req.recipientId.value);
        Ok(ChatTarget(chats + [c], c.id))
  }

  /** The dedup check: a new message, unless one with the same key is stored. */
  function Admit(messages: seq<Message>, key: string, chatId: int, sender: int, text: string, now: int): (r: Option<Message>)
    ensures r.None? <==> exists k :: 0 <= k < |messages| && messages[k].dedupKey == key
    ensures r.Some? ==> && r.value.id == |messages| + 1 && r.value.chatId == chatId && r.value.senderId == sender
                        && r.value.text == text && r.value.timestamp == now && !r.value.read && r.value.dedupKey == key
  {
    if MessageWithKey(messages, key).Some? then None
    else Some(NewMessage(|messages| + 1, chatId, sender, text, now, key))
  }

  /** Appending an admitted message keeps every key unique. */
  lemma AdmitKeepsKeysUnique(messages: seq<Message>, key: string, chatId: int, sender: int, text: string, now: int)
    requires UniqueDedupKeys(messages)
    requires Admit(messages, key, chatId, sender, text, now).Some?
    ensures UniqueDedupKeys(messages + [Admit(messages, key, chatId, sender, text, now).value])
  {
    var m := Admit(messages, key, chatId, sender, text, now).value;
    assert forall k :: 0 <= k < |messages| ==> messages[k].dedupKey != key;
    assert forall k :: 0 <= k < |messages| ==> (messages + [m])[k] == messages[k];
  }

  /** The dedup key both paths compute: the digest (MD5 in the source) of the dedup source. */
  function DedupKey(digest: string -> string, sender: int, chatId: int, text: string): string {
    digest(DedupSource(sender, chatId, text))
  }

  /** The guarded insert: the admitted message is appended; a taken key leaves the tables alone. */
  function AdmitInto(t: Tables, key: string, chatId: int, sender: int, text: string, now: int): (s: Step<Option<Message>>)
    ensures s.result == Admit(t.messages, key, chatId, sender, text, now)
    ensures s.result.None? ==> s.tables == t
    ensures s.result.Some? ==> s.tables == t.(messages := t.messages + [s.result.value])
    ensures WellFormed(t) ==> WellFormed(s.tables)
  {
    match Admit(t.messages, key, chatId, sender, text, now)
    case None => Step(t, None)
    case Some(m) =>
      assert WellFormed(t) ==> WellFormed(t.(messages := t.messages + [m])) by {
        if WellFormed(t) {
          AdmitKeepsKeysUnique(t.messages, key, chatId, sender, text, now);
        }
      }
      Step(t.(messages := t.messages + [m]), Some(m))
  }

  /** The chat a resolution appends gets the next id and leaves every group pointing at its group chat. */
  lemma ResolutionKeepsWellFormed(t: Tables, sender: int, req: MessageCreate)
    requires WellFormed(t) && ResolveChat(t.chats, sender, req).Ok?
    ensures WellFormed(t.(chats := ResolveChat(t.chats, sender, req).value.chats))
  {
    var after := ResolveChat(t.chats, sender, req).value.chats;
    if after != t.chats {
      assert after == t.chats + [CanonicalChat(t.chats, sender, req.recipientId.value)];
      forall k | 0 <= k < |t.groups| ensures GroupRowOk(t.groups[k], after) {
        assert GroupRowOk(t.groups[k], t.chats);
        assert after[t.groups[k].chatId - 1] == t.chats[t.groups[k].chatId - 1];
      }
    }
  }

  /** `create_message`: resolve the chat, then store the message unless its key is taken. */
  function CreateMessageSpec(t: Tables, digest: string -> string, sender: int, req: MessageCreate, now: int): (s: Step<Response<Message>>)
    ensures WellFormed(t) ==> WellFormed(s.tables)
  {
    match ResolveChat(t.chats, sender, req)
    case Err400(d) => Step(t, Err400(d))
    case Err404(d) => Step(t, Err404(d))
    case Ok(target) =>
      var t1 := t.(chats := target.chats);
      assert WellFormed(t) ==> WellFormed(t1) by {
        if WellFormed(t) {
          ResolutionKeepsWellFormed(t, sender, req);
        }
      }
      var stored := AdmitInto(t1, DedupKey(digest, sender, target.chatId, req.text), target.chatId, sender, req.text, now);
      Step(stored.tables, if stored.result.Some? then Ok(stored.result.value) else Err400(MessageExists))
  }

  /** Neither `chat_id` nor `recipient_id`: 400; an unknown `chat_id` and no recipient: 404; nothing is stored. */
  lemma ResolutionErrors(t: Tables, digest: string -> string, sender: int, req: MessageCreate, now: int)
    ensures req.chatId.None? && !Given(req.recipientId) ==>
              CreateMessageSpec(t, digest, sender, req, now) == Step(t, Err400(ChatOrRecipientRequired))
    ensures req.chatId.Some? && ChatWithId(t.chats, req.chatId.value).None? && !Given(req.recipientId) ==>
              CreateMessageSpec(t, digest, sender, req, now) == Step(t, Err404(ChatNotFound))
    ensures CreateMessageSpec(t, digest, sender, req, now).result.Err404? ==>
              CreateMessageSpec(t, digest, sender, req, now).tables == t
  {
  }

  /** An explicit `chat_id` that exists is used as it is, and no chat is created. */
  lemma ExplicitChatUsed(chats: seq<Chat>, sender: int, req: MessageCreate)
    requires req.chatId.Some? && ChatWithId(chats, req.chatId.value).Some?
    ensures ResolveChat(chats, sender, req) == Ok(ChatTarget(chats, req.chatId.value))
  {
  }

  /**
   * An unknown `chat_id` with a recipient creates a new private chat with the
   * canonical name without looking for an existing one, so the name may then
   * be carried by two private chats.
   */
  lemma StaleChatIdCreatesWithoutLookup(chats: seq<Chat>, sender: int, req: MessageCreate)
    requires req.chatId.Some? && ChatWithId(chats, req.chatId.value).None? && Given(req.recipientId)
    ensures ResolveChat(chats, sender, req) ==
              Ok(ChatTarget(chats + [CanonicalChat(chats, sender, req.recipientId.value)], |chats| + 1))
    ensures PrivateChatNamed(chats, PrivateChatName(sender, req.recipientId.value)).Some? ==>
              !UniquePrivateNames(ResolveChat(chats, sender, req).value.chats)
  {
    var name := PrivateChatName(sender, req.recipientId.value);
    if PrivateChatNamed(chats, name).Some? {
      var k := PrivateChatNamed(chats, name).value;
      var after := chats + [CanonicalChat(chats, sender, req.recipientId.value)];
      assert after[k] == chats[k] && after[|chats|].name == Some(name);
    }
  }

  /**
   * Without `chat_id`, the first private chat with the canonical name is used
   * if there is one, and otherwise one is created.
   */
  lemma PrivateChatLookup(chats: seq<Chat>, sender: int, req: MessageCreate)
    requires req.chatId.None? && Given(req.recipientId)
    ensures var name := PrivateChatName(sender, req.recipientId.value);
            match PrivateChatNamed(chats, name)
            case Some(k) => ResolveChat(chats, sender, req) == Ok(ChatTarget(chats, chats[k].id))
            case None => ResolveChat(chats, sender, req) ==
                           Ok(ChatTarget(chats + [CanonicalChat(chats, sender, req.recipientId.value)], |chats| + 1))
  {
  }

  /**
   * Private chats are shared by the two parties: after `a` writes to `b`
   * without `chat_id`, a later submission by `b` to `a` without `chat_id`,
   * whatever rows were appended meanwhile, resolves to the same chat and
   * creates none.
   */
  lemma PrivateResolutionSymmetric(chats: seq<Chat>, later: seq<Chat>, a: int, b: int, x: string, y: string)
    requires a != 0 && b != 0
    ensures ResolveChat(chats, a, MessageCreate(None, Some(b), x)).Ok?
    ensures var first := ResolveChat(chats, a, MessageCreate(None, Some(b), x)).value;
            ResolveChat(first.chats + later, b, MessageCreate(None, Some(a), y)) == Ok(ChatTarget(first.chats + later, first.chatId))
  {
    var name := PrivateChatName(a, b);
    PrivateChatNameSymmetric(a, b);
    var pred := (c: Chat) => IsPrivateNamed(c, name);
    var first := ResolveChat(chats, a, MessageCreate(None, Some(b), x)).value;
    match PrivateChatNamed(chats, name)
    case Some(k) =>
      FirstIndexAppended(chats, later, pred);
    case None =>
      var c := CanonicalChat(chats, a, b);
      FirstIndexPastEnd(chats, c, pred);
      FirstIndexAppended(chats + [c], later, pred);
      assert (chats + [c] + later)[|chats|] == c;
  }

  /** Resolution without `chat_id` never gives a name to a second private chat. */
  lemma NoChatIdKeepsPrivateChatsUnique(chats: seq<Chat>, sender: int, req: MessageCreate)
    requires UniquePrivateNames(chats) && req.chatId.None?
    requires ResolveChat(chats, sender, req).Ok?
    ensures UniquePrivateNames(ResolveChat(chats, sender, req).value.chats)
  {
    var name := PrivateChatName(sender, req.recipientId.value);
    if PrivateChatNamed(chats, name).None? {
      var c := CanonicalChat(chats, sender, req.recipientId.value);
      var after := chats + [c];
      forall i, j | 0 <= i < j < |after| && after[i].kind == PrivateChat && after[j].kind == PrivateChat && after[i].name.Some?
        ensures after[i].name != after[j].name
      {
        if j == |chats| {
          assert !IsPrivateNamed(chats[i], name);
        } else {
          assert after[i] == chats[i] && after[j] == chats[j];
        }
      }
    }
  }

  /**
   * The REST dedup rule: with the chat resolved, a taken key answers 400 and
   * stores nothing; a free key stores exactly one message with that chat,
   * sender, text and key, unread, under the next id.
   */
  lemma RestDedup(t: Tables, digest: string -> string, sender: int, req: MessageCreate, now: int)
    requires ResolveChat(t.chats, sender, req).Ok?
    ensures var target := ResolveChat(t.chats, sender, req).value;
            var key := digest(DedupSource(sender, target.chatId, req.text));
            var s := CreateMessageSpec(t, digest, sender, req, now);
            && s.tables.chats == target.chats
            && s.tables.users == t.users && s.tables.groups == t.groups
            && (MessageWithKey(t.messages, key).Some? ==> s.result == Err400(MessageExists) && s.tables.messages == t.messages)
            && (MessageWithKey(t.messages, key).None? ==>
                  s.result.Ok? && s.tables.messages == t.messages + [s.result.value]
                  && s.result.value == Message(|t.messages| + 1, target.chatId, sender, req.text, now, false, key))
  {
  }

  /**
   * Resubmitting the same body is rejected and changes nothing, whenever the
   * chat is resolved from an existing `chat_id` or without one.
   */
  lemma ResubmissionRejected(t: Tables, digest: string -> string, sender: int, req: MessageCreate, now: int, later: int)
    requires req.chatId.None? || ChatWithId(t.chats, req.chatId.value).Some?
    ensures var first := CreateMessageSpec(t, digest, sender, req, now);
            var second := CreateMessageSpec(first.tables, digest, sender, req, later);
            && second.result.Err400? && second.tables == first.tables
            && (ResolveChat(t.chats, sender, req).Ok? ==> second.result == Err400(MessageExists))
  {
    var first := CreateMessageSpec(t, digest, sender, req, now);
    var t1 := first.tables;
    var r0 := ResolveChat(t.chats, sender, req);
    if r0.Ok? {
      var r1 := ResolveChat(t1.chats, sender, req);
      assert t1.chats == r0.value.chats;
      if req.chatId.Some? {
        var k := ChatWithId(t.chats, req.chatId.value).value;
        assert r1 == Ok(ChatTarget(t1.chats, r0.value.chatId));
      } else {
        var name := PrivateChatName(sender, req.recipientId.value);
        match PrivateChatNamed(t.chats, name)
        case Some(k) =>
          assert r1 == Ok(ChatTarget(t1.chats, r0.value.chatId));
        case None =>
          var c := CanonicalChat(t.chats, sender, req.recipientId.value);
          FirstIndexPastEnd(t.chats, c, (c: Chat) => IsPrivateNamed(c, name));
          assert r1 == Ok(ChatTarget(t1.chats, r0.value.chatId));
      }
      var key := DedupKey(digest, sender, r0.value.chatId, req.text);
      assert MessageWithKey(t1.messages, key).Some? by {
        if first.result.Ok? {
          var m := first.result.value;
          assert t1.messages[|t.messages|] == m && m.dedupKey == key;
        }
      }
    }
  }

  /**
   * An unknown `chat_id` with a recipient is not deduplicated: submitting the
   * same body again creates a second new chat, so the dedup source differs.
   * The message is then stored a second time unless some stored message
   * already has the new key: a digest collision, or a message that a
   * websocket frame stored for that chat id, which the websocket path never
   * checks exists.
   */
  lemma StaleChatIdResubmission(t: Tables, digest: string -> string, sender: int, req: MessageCreate, now: int, later: int)
    requires req.chatId.Some? && Given(req.recipientId)
    requires forall k :: 0 <= k < |t.chats| ==> t.chats[k].id == k + 1
    requires !(1 <= req.chatId.value <= |t.chats| + 1)
    ensures var first := CreateMessageSpec(t, digest, sender, req, now);
            var second := ResolveChat(first.tables.chats, sender, req);
            && first.tables.chats == t.chats + [CanonicalChat(t.chats, sender, req.recipientId.value)]
            && second.Ok? && second.value.chatId == |t.chats| + 2
            && second.value.chats == first.tables.chats + [CanonicalChat(first.tables.chats, sender, req.recipientId.value)]
            && DedupSource(sender, |t.chats| + 1, req.text) != DedupSource(sender, second.value.chatId, req.text)
  {
    ChatWithIdPositional(t.chats, req.chatId.value);
    var c := CanonicalChat(t.chats, sender, req.recipientId.value);
    var chats1 := t.chats + [c];
    assert forall k :: 0 <= k < |chats1| ==> chats1[k].id == k + 1;
    ChatWithIdPositional(chats1, req.chatId.value);
    DedupSourceInjective(sender, |t.chats| + 1, req.text, sender, |t.chats| + 2, req.text);
  }

  /**
   * An unknown `chat_id` that is exactly the next id is created by the first
   * submission under that id, so a resubmission finds it and is rejected.
   */
  lemma NextIdResubmission(t: Tables, digest: string -> string, sender: int, req: MessageCreate, now: int, later: int)
    requires WellFormed(t)
    requires req.chatId == Some(|t.chats| + 1) && Given(req.recipientId)
    ensures var first := CreateMessageSpec(t, digest, sender, req, now);
            var second := CreateMessageSpec(first.tables, digest, sender, req, later);
            && first.tables.chats == t.chats + [CanonicalChat(t.chats, sender, req.recipientId.value)]
            && second == Step(first.tables, Err400(MessageExists))
  {
    var first := CreateMessageSpec(t, digest, sender, req, now);
    var t1 := first.tables;
    ChatWithIdPositional(t.chats, |t.chats| + 1);
    var c := CanonicalChat(t.chats, sender, req.recipientId.value);
    assert t1.chats == t.chats + [c];
    assert forall k :: 0 <= k < |t1.chats| ==> t1.chats[k].id == k + 1;
    ChatWithIdPositional(t1.chats, |t.chats| + 1);
    assert ResolveChat(t1.chats, sender, req) == Ok(ChatTarget(t1.chats, |t.chats| + 1));
    var key := DedupKey(digest, sender, |t.chats| + 1, req.text);
    assert MessageWithKey(t1.messages, key).Some? by {
      if first.result.Ok? {
        var m := first.result.value;
        assert t1.messages[|t.messages|] == m && m.dedupKey == key;
      }
    }
  }

  // ---------------------------------------------------------------------------
  // One websocket frame

  /**
   * The body of the websocket loop for a frame with `text` (absent when the
   * frame has none): empty text and a taken key are skipped; otherwise the
   * message is stored under the connection's user and chat.
   */
  function ReceiveFrameSpec(t: Tables, digest: string -> string, userId: int, chatId: int, text: Option<string>, now: int): (s: Step<Option<Message>>)
    ensures WellFormed(t) ==> WellFormed(s.tables)
  {
    if text.None? || text.value == "" then Step(t, None)
    else AdmitInto(t, DedupKey(digest, userId, chatId, text.value), chatId, userId, text.value, now)
  }

  /**
   * Empty text changes nothing; a taken key is skipped silently; otherwise one
   * unread message is appended for the user and the connection's chat.
   */
  lemma FrameRules(t: Tables, digest: string -> string, userId: int, chatId: int, text: Option<string>, now: int)
    ensures text.None? || text == Some("") ==> ReceiveFrameSpec(t, digest, userId, chatId, text, now) == Step(t, None)
    ensures text.Some? && text.value != "" ==>
              var key := digest(DedupSource(userId, chatId, text.value));
              var s := ReceiveFrameSpec(t, digest, userId, chatId, text, now);
              && (MessageWithKey(t.messages, key).Some? ==> s == Step(t, None))
              && (MessageWithKey(t.messages, key).None? ==>
                    s == Step(t.(messages := t.messages + [Message(|t.messages| + 1, chatId, userId, text.value, now, false, key)]),
                              Some(Message(|t.messages| + 1, chatId, userId, text.value, now, false, key))))
  {
  }

  /** The same frame received twice is stored at most once: the second is skipped and changes nothing. */
  lemma FrameResubmissionSkipped(t: Tables, digest: string -> string, userId: int, chatId: int, text: Option<string>, now: int, later: int)
    ensures var first := ReceiveFrameSpec(t, digest, userId, chatId, text, now);
            ReceiveFrameSpec(first.tables, digest, userId, chatId, text, later) == Step(first.tables, None)
  {
    var first := ReceiveFrameSpec(t, digest, userId, chatId, text, now);
    if first.result.Some? {
      var m := first.result.value;
      assert first.tables.messages[|t.messages|] == m;
    }
  }

  // ---------------------------------------------------------------------------
  // POST /group

  /** `select(User).where(User.id.in_(ids))`: the ids of the known users among `ids`, in table order. */
  function SelectUsers(users: seq<User>, ids: seq<int>): (r: seq<int>)
    ensures |r| <= |users|
    ensures forall x :: x in r ==> x in ids
  {
    if users == [] then []
    else (if users[0].id in ids then [users[0].id] else []) + SelectUsers(users[1..], ids)
  }

  /** The selected users, with the creator appended when it is not among them. */
  function GroupParticipants(users: seq<User>, ids: seq<int>, creator: int): (r: seq<int>)
    ensures creator in r
    ensures forall x :: x in r ==> x == creator || x in ids
  {
    var selected := SelectUsers(users, ids);
    if creator in selected then selected else selected + [creator]
  }

  predicate IsUserId(users: seq<User>, id: int) {
    exists k :: 0 <= k < |users| && users[k].id == id
  }

  lemma {:induction false} SelectUsersMembers(users: seq<User>, ids: seq<int>, x: int)
    ensures x in SelectUsers(users, ids) <==> x in ids && IsUserId(users, x)
  {
    if users != [] {
      SelectUsersMembers(users[1..], ids, x);
      if IsUserId(users, x) && users[0].id != x {
        var k :| 0 <= k < |users| && users[k].id == x;
        assert users[1..][k - 1].id == x;
      }
      if IsUserId(users[1..], x) {
        var k :| 0 <= k < |users[1..]| && users[1..][k].id == x;
        assert users[k + 1].id == x;
      }
    }
  }

  lemma {:induction false} SelectUsersDistinct(users: seq<User>, ids: seq<int>)
    requires DistinctUserIds(users)
    ensures NoDuplicates(SelectUsers(users, ids))
  {
    if users != [] {
      var rest := SelectUsers(users[1..], ids);
      assert DistinctUserIds(users[1..]) by {
        forall i, j | 0 <= i < j < |users[1..]| ensures users[1..][i].id != users[1..][j].id {
          assert users[1..][i] == users[i + 1] && users[1..][j] == users[j + 1];
        }
      }
      SelectUsersDistinct(users[1..], ids);
      if users[0].id in ids {
        SelectUsersMembers(users[1..], ids, users[0].id);
        assert !IsUserId(users[1..], users[0].id) by {
          forall k | 0 <= k < |users[1..]| ensures users[1..][k].id != users[0].id {
            assert users[1..][k] == users[k + 1];
          }
        }
        var all := [users[0].id] + rest;
        forall i, j | 0 <= i < j < |all| ensures all[i] != all[j] {
          if i == 0 {
            assert all[j] == rest[j - 1];
          }
        }
      }
    }
  }

  lemma AppendFreshKeepsNoDuplicates(s: seq<int>, x: int)
    requires NoDuplicates(s) && x !in s
    ensures NoDuplicates(s + [x])
  {
    assert forall k :: 0 <= k < |s| ==> (s + [x])[k] == s[k];
  }

  /**
   * The participants are exactly the known users named in the request, plus
   * the creator; unknown ids are dropped, and no id, the creator's included,
   * appears twice.
   */
  lemma GroupParticipantsExact(users: seq<User>, ids: seq<int>, creator: int)
    requires DistinctUserIds(users)
    ensures forall x :: x in GroupParticipants(users, ids, creator) <==> x == creator || (x in ids && IsUserId(users, x))
    ensures NoDuplicates(GroupParticipants(users, ids, creator))
    ensures multiset(GroupParticipants(users, ids, creator))[creator] == 1
  {
    forall x ensures x in SelectUsers(users, ids) <==> x in ids && IsUserId(users, x) {
      SelectUsersMembers(users, ids, x);
    }
    SelectUsersDistinct(users, ids);
    var ps := GroupParticipants(users, ids, creator);
    if creator !in SelectUsers(users, ids) {
      AppendFreshKeepsNoDuplicates(SelectUsers(users, ids), creator);
    }
    NoDuplicatesOccursOnce(ps, creator);
  }

  lemma {:induction false} NoDuplicatesOccursOnce(s: seq<int>, x: int)
    requires NoDuplicates(s) && x in s
    ensures multiset(s)[x] == 1
  {
    if s[0] == x {
      assert s == [s[0]] + s[1..];
      assert x !in s[1..] by {
        forall k | 0 <= k < |s[1..]| ensures s[1..][k] != x {
          assert s[1..][k] == s[k + 1];
        }
      }
    } else {
      assert s == [s[0]] + s[1..];
      assert NoDuplicates(s[1..]) by {
        forall i, j | 0 <= i < j < |s[1..]| ensures s[1..][i] != s[1..][j] {
          assert s[1..][i] == s[i + 1] && s[1..][j] == s[j + 1];
        }
      }
      NoDuplicatesOccursOnce(s[1..], x);
    }
  }

  /** `create_group`: a new group chat, and a group that refers to it with the resolved participants. */
  function CreateGroupSpec(t: Tables, creator: int, req: GroupCreate): (s: Step<GroupOut>)
    ensures WellFormed(t) ==> WellFormed(s.tables)
  {
    var chat := NewChat(|t.chats| + 1, Some(req.name), GroupChat);
    var participants := GroupParticipants(t.users, req.participantIds, creator);
    var g := Group(|t.groups| + 1, req.name, creator, chat.id, participants);
    var t' := t.(chats := t.chats + [chat], groups := t.groups + [g]);
    assert WellFormed(t) ==> WellFormed(t') by {
      if WellFormed(t) {
        GroupParticipantsExact(t.users, req.participantIds, creator);
        assert GroupRowOk(g, t'.chats);
        forall k | 0 <= k < |t'.groups| ensures GroupRowOk(t'.groups[k], t'.chats) {
          if k < |t.groups| {
            assert t'.groups[k] == t.groups[k];
            assert GroupRowOk(t.groups[k], t.chats);
            assert t'.chats[t.groups[k].chatId - 1] == t.chats[t.groups[k].chatId - 1];
          }
        }
      }
    }
    Step(t', GroupOut(g.id, g.name, g.creatorId, g.chatId, g.participants))
  }

  /**
   * A group creation appends one group chat and one group that refers to it,
   * created by the caller, whose participant ids are answered; nothing else
   * changes.
   */
  lemma GroupCreation(t: Tables, creator: int, req: GroupCreate)
    requires WellFormed(t)
    ensures var s := CreateGroupSpec(t, creator, req);
            && s.tables.chats == t.chats + [Chat(|t.chats| + 1, Some(req.name), GroupChat)]
            && |s.tables.groups| == |t.groups| + 1 && s.tables.groups[..|t.groups|] == t.groups
            && s.tables.groups[|t.groups|] == Group(s.result.id, req.name, creator, s.result.chatId, s.result.participantIds)
            && s.result.chatId == |t.chats| + 1 && s.result.creatorId == creator && s.result.name == req.name
            && s.tables.users == t.users && s.tables.messages == t.messages
            && (forall x :: x in s.result.participantIds <==> x == creator || (x in req.participantIds && IsUserId(t.users, x)))
            && multiset(s.result.participantIds)[creator] == 1
  {
    GroupParticipantsExact(t.users, req.participantIds, creator);
    var s := CreateGroupSpec(t, creator, req);
    assert s.tables.groups[..|t.groups|] == t.groups;
  }

  // ---------------------------------------------------------------------------
  // PATCH /message/{id}/read

  /** `mark_message_read`: 404 for an unknown id, otherwise the message's `read` flag is set. */
  function MarkReadSpec(t: Tables, messageId: int): (s: Step<Response<Message>>)
    ensures WellFormed(t) ==> WellFormed(s.tables)
  {
    match MessageWithId(t.messages, messageId)
    case None => Step(t, Err404(MessageNotFound))
    case Some(k) =>
      var m := t.messages[k].(read := true);
      var t' := t.(messages := t.messages[k := m]);
      assert WellFormed(t) ==> WellFormed(t') by {
        if WellFormed(t) {
          assert forall j :: 0 <= j < |t.messages| ==> t'.messages[j].dedupKey == t.messages[j].dedupKey;
        }
      }
      Step(t', Ok(m))
  }

  /**
   * An unknown message id answers 404 and changes nothing; otherwise only the
   * `read` field of that message changes, to true, and the answer is the
   * updated message.
   */
  lemma MarkReadChangesOnlyRead(t: Tables, messageId: int)
    ensures var s := MarkReadSpec(t, messageId);
            && (s.result.Err404? <==> forall k :: 0 <= k < |t.messages| ==> t.messages[k].id != messageId)
            && (s.result.Err404? ==> s.tables == t)
            && (s.result.Ok? ==>
                  && s.tables.users == t.users && s.tables.chats == t.chats && s.tables.groups == t.groups
                  && |s.tables.messages| == |t.messages|
                  && exists k :: 0 <= k < |t.messages| && t.messages[k].id == messageId
                       && s.tables.messages[k] == t.messages[k].(read := true) && s.result.value == s.tables.messages[k]
                       && forall j :: 0 <= j < |t.messages| && j != k ==> s.tables.messages[j] == t.messages[j])
    ensures MarkReadSpec(t, messageId).result.Ok? ==> MarkReadSpec(t, messageId).result.value.read
  {
    var s := MarkReadSpec(t, messageId);
    if s.result.Ok? {
      var k := MessageWithId(t.messages, messageId).value;
      assert t.messages[k].id == messageId;
    }
  }

  /** Marking a message read a second time answers the same and changes nothing more. */
  lemma MarkReadIdempotent(t: Tables, messageId: int)
    ensures var first := MarkReadSpec(t, messageId);
            MarkReadSpec(first.tables, messageId) == first
  {
    var first := MarkReadSpec(t, messageId);
    if first.result.Ok? {
      var k := MessageWithId(t.messages, messageId).value;
      var p := (m: Message) => m.id == messageId;
      assert forall j :: 0 <= j < |t.messages| ==> first.tables.messages[j].id == t.messages[j].id;
      assert MessageWithId(first.tables.messages, messageId) == Some(k);
      assert first.tables.messages[k := first.tables.messages[k].(read := true)] == first.tables.messages;
    }
  }

  // ---------------------------------------------------------------------------
  // GET /history/{chat_id}

  function InChat(messages: seq<Message>, chatId: int): seq<Message> {
    if messages == [] then []
    else (if messages[0].chatId == chatId then [messages[0]] else []) + InChat(messages[1..], chatId)
  }

  predicate SortedByTime(s: seq<Message>) {
    forall i, j :: 0 <= i < j < |s| ==> s[i].timestamp <= s[j].timestamp
  }

  function InsertByTime(m: Message, sorted: seq<Message>): seq<Message> {
    if sorted == [] || m.timestamp <= sorted[0].timestamp then [m] + sorted
    else [sorted[0]] + InsertByTime(m, sorted[1..])
  }

  function SortByTime(s: seq<Message>): seq<Message> {
    if s == [] then [] else InsertByTime(s[0], SortByTime(s[1..]))
  }

  /**
   * `get_history`: the chat's messages ordered by timestamp, skipping `offset`
   * of them and keeping at most `limit`.
   */
  function History(messages: seq<Message>, chatId: int, limit: nat := 100, offset: nat := 0): (h: seq<Message>)
    ensures |h| <= limit
    ensures forall m :: m in h ==> m in messages && m.chatId == chatId
    ensures SortedByTime(h)
  {
    var chat := InChat(messages, chatId);
    SortByTimeCorrect(chat);
    SortByTimeKeeps(chat);
    InChatMembers(messages, chatId);
    WindowFacts(SortByTime(chat), limit, offset);
    Window(SortByTime(chat), limit, offset)
  }

  /** `.offset(offset).limit(limit)`: skip `offset` rows, then keep at most `limit`. */
  function Window(s: seq<Message>, limit: nat, offset: nat): (r: seq<Message>)
    ensures |r| <= limit
    ensures offset >= |s| ==> r == []
    ensures offset <= |s| ==> offset + |r| <= |s| && forall k :: 0 <= k < |r| ==> r[k] == s[offset + k]
  {
    var start := if offset <= |s| then offset else |s|;
    var stop := if limit <= |s| - start then start + limit else |s|;
    s[start..stop]
  }

  lemma {:induction false} InChatMembers(messages: seq<Message>, chatId: int)
    ensures forall m :: m in InChat(messages, chatId) <==> m in messages && m.chatId == chatId
  {
    if messages != [] {
      InChatMembers(messages[1..], chatId);
      assert messages == [messages[0]] + messages[1..];
    }
  }

  /** Every message of `s` is stamped no earlier than `lo`. */
  predicate AtLeast(s: seq<Message>, lo: int) {
    forall k :: 0 <= k < |s| ==> lo <= s[k].timestamp
  }

  lemma {:induction false} InsertByTimeMultiset(m: Message, sorted: seq<Message>)
    ensures multiset(InsertByTime(m, sorted)) == multiset(sorted) + multiset{m}
  {
    if sorted != [] && m.timestamp > sorted[0].timestamp {
      InsertByTimeMultiset(m, sorted[1..]);
      assert sorted == [sorted[0]] + sorted[1..];
    }
  }

  lemma {:induction false} InsertByTimeAtLeast(m: Message, s: seq<Message>, lo: int)
    requires AtLeast(s, lo) && lo <= m.timestamp
    ensures AtLeast(InsertByTime(m, s), lo)
  {
    if s != [] && m.timestamp > s[0].timestamp {
      assert AtLeast(s[1..], lo) by {
        forall k | 0 <= k < |s[1..]| ensures lo <= s[1..][k].timestamp {
          assert s[1..][k] == s[k + 1];
        }
      }
      InsertByTimeAtLeast(m, s[1..], lo);
    }
  }

  /** A sorted list stays sorted behind a message that is no later than any of it. */
  lemma SortedCons(x: Message, s: seq<Message>)
    requires SortedByTime(s) && AtLeast(s, x.timestamp)
    ensures SortedByTime([x] + s)
  {
    var r := [x] + s;
    forall i, j | 0 <= i < j < |r| ensures r[i].timestamp <= r[j].timestamp {
      assert r[j] == s[j - 1];
      if i > 0 {
        assert r[i] == s[i - 1];
      }
    }
  }

  lemma SortedTail(s: seq<Message>)
    requires SortedByTime(s) && s != []
    ensures SortedByTime(s[1..]) && AtLeast(s[1..], s[0].timestamp)
  {
    forall i, j | 0 <= i < j < |s[1..]| ensures s[1..][i].timestamp <= s[1..][j].timestamp {
      assert s[1..][i] == s[i + 1] && s[1..][j] == s[j + 1];
    }
    forall k | 0 <= k < |s[1..]| ensures s[0].timestamp <= s[1..][k].timestamp {
      assert s[1..][k] == s[k + 1];
    }
  }

  lemma {:induction false} InsertByTimeSorted(m: Message, sorted: seq<Message>)
    requires SortedByTime(sorted)
    ensures SortedByTime(InsertByTime(m, sorted))
  {
    if sorted == [] || m.timestamp <= sorted[0].timestamp {
      if sorted != [] {
        SortedTail(sorted);
        assert AtLeast(sorted, m.timestamp) by {
          forall k | 0 <= k < |sorted| ensures m.timestamp <= sorted[k].timestamp {
            if k > 0 {
              assert sorted[1..][k - 1] == sorted[k];
            }
          }
        }
      }
      SortedCons(m, sorted);
    } else {
      SortedTail(sorted);
      InsertByTimeSorted(m, sorted[1..]);
      InsertByTimeAtLeast(m, sorted[1..], sorted[0].timestamp);
      SortedCons(sorted[0], InsertByTime(m, sorted[1..]));
    }
  }

  lemma {:induction false} SortByTimeCorrect(s: seq<Message>)
    ensures SortedByTime(SortByTime(s))
    ensures multiset(SortByTime(s)) == multiset(s)
  {
    if s != [] {
      SortByTimeCorrect(s[1..]);
      InsertByTimeSorted(s[0], SortByTime(s[1..]));
      InsertByTimeMultiset(s[0], SortByTime(s[1..]));
      assert s == [s[0]] + s[1..];
    }
  }

  /** Sorting keeps the length and the members. */
  lemma SortByTimeKeeps(s: seq<Message>)
    ensures |SortByTime(s)| == |s|
    ensures forall m :: m in SortByTime(s) <==> m in s
  {
    SortByTimeCorrect(s);
    assert |multiset(SortByTime(s))| == |multiset(s)|;
    forall m ensures m in SortByTime(s) <==> m in s {
      assert m in SortByTime(s) <==> m in multiset(SortByTime(s));
      assert m in s <==> m in multiset(s);
    }
  }

  lemma SortedSlice(s: seq<Message>, i: nat, j: nat)
    requires SortedByTime(s) && i <= j <= |s|
    ensures SortedByTime(s[i..j])
  {
    forall a, b | 0 <= a < b < j - i ensures s[i..j][a].timestamp <= s[i..j][b].timestamp {
      assert s[i..j][a] == s[i + a] && s[i..j][b] == s[i + b];
    }
  }

  /** A window of a sorted list is sorted, holds only its members and is all of it from the start with a large enough limit. */
  lemma WindowFacts(s: seq<Message>, limit: nat, offset: nat)
    ensures |Window(s, limit, offset)| == (if offset >= |s| then 0 else if limit <= |s| - offset then limit else |s| - offset)
    ensures forall m :: m in Window(s, limit, offset) ==> m in s
    ensures SortedByTime(s) ==> SortedByTime(Window(s, limit, offset))
    ensures offset == 0 && limit >= |s| ==> Window(s, limit, offset) == s
  {
    var start := if offset <= |s| then offset else |s|;
    var stop := if limit <= |s| - start then start + limit else |s|;
    if SortedByTime(s) {
      SortedSlice(s, start, stop);
    }
  }

  /**
   * The history holds only messages of the chat, in timestamp order, at most
   * `limit` of them, as many as remain after skipping `offset`; with no offset
   * and a large enough limit it holds every message of the chat.
   */
  lemma HistoryWindow(messages: seq<Message>, chatId: int, limit: nat, offset: nat)
    ensures var h := History(messages, chatId, limit, offset);
            var n := |InChat(messages, chatId)|;
            && |h| == (if offset >= n then 0 else if limit <= n - offset then limit else n - offset)
            && (forall m :: m in h ==> m in messages && m.chatId == chatId)
            && SortedByTime(h)
            && (offset == 0 && limit >= n ==> multiset(h) == multiset(InChat(messages, chatId)))
            && (offset <= n ==> forall k :: 0 <= k < |h| ==> h[k] == SortByTime(InChat(messages, chatId))[offset + k])
  {
    var chat := InChat(messages, chatId);
    SortByTimeCorrect(chat);
    SortByTimeKeeps(chat);
    InChatMembers(messages, chatId);
    WindowFacts(SortByTime(chat), limit, offset);
  }
}
