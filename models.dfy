/**
 * The stored entities and the constraints the schema puts on them.
 *
 * The database is modelled as four tables in insertion order. Rows are never
 * deleted, so the auto-incremented primary key of a row is its position plus
 * one, and a new row gets the table's length plus one.
 */
module Models {
  import opened Wrappers

  /** The chat kinds; the enum is string-valued. */
  datatype ChatType = PrivateChat | GroupChat

  /** A chat created without a type is a private chat. */
  const DefaultChatType: ChatType := PrivateChat

  datatype User = User(id: int, name: string, email: string)

  datatype Chat = Chat(id: int, name: Option<string>, kind: ChatType)

  datatype Group = Group(id: int, name: string, creatorId: int, chatId: int, participants: seq<int>)

  /** A timestamp is an opaque instant supplied by the caller (`utcnow()`). */
  datatype Message = Message(id: int, chatId: int, senderId: int, text: string, timestamp: int, read: bool, dedupKey: string)

  datatype Tables = Tables(users: seq<User>, chats: seq<Chat>, groups: seq<Group>, messages: seq<Message>)

  /** The string each enum member stands for. */
  function ChatTypeValue(t: ChatType): string {
    match t
    case PrivateChat => "private"
    case GroupChat => "group"
  }

  /** `ChatType(s)`: the member whose value is `s`, if any. */
  function ParseChatType(s: string): Option<ChatType> {
    if s == "private" then Some(PrivateChat)
    else if s == "group" then Some(GroupChat)
    else None
  }

  /** The enum has exactly the two values "private" and "group", and they name their members. */
  lemma ChatTypeValues(t: ChatType, s: string)
    ensures ParseChatType(ChatTypeValue(t)) == Some(t)
    ensures ParseChatType(s).Some? <==> s == "private" || s == "group"
    ensures ParseChatType(s).Some? ==> ChatTypeValue(ParseChatType(s).value) == s
  {
  }

  /** `Chat(id=..., name=...)` with the column default for the type. */
  function NewChat(id: int, name: Option<string>, kind: ChatType := DefaultChatType): Chat {
    Chat(id, name, kind)
  }

  /** `Message(...)` with the column default `read = False`. */
  function NewMessage(id: int, chatId: int, senderId: int, text: string, timestamp: int, dedupKey: string): (m: Message)
    ensures !m.read
  {
    Message(id, chatId, senderId, text, timestamp, false, dedupKey)
  }

  /** The unique constraint on `dedup_key`: no two messages share a key. */
  predicate UniqueDedupKeys(messages: seq<Message>) {
    forall i, j :: 0 <= i < j < |messages| ==> messages[i].dedupKey != messages[j].dedupKey
  }

  predicate DistinctUserIds(users: seq<User>) {
    forall i, j :: 0 <= i < j < |users| ==> users[i].id != users[j].id
  }

  predicate NoDuplicates(s: seq<int>) {
    forall i, j :: 0 <= i < j < |s| ==> s[i] != s[j]
  }

  /**
   * A group refers (by its non-null `chat_id`) to an existing group chat, and
   * its participant list holds its creator and no id twice.
   */
  predicate GroupRowOk(g: Group, chats: seq<Chat>) {
    && 1 <= g.chatId <= |chats|
    && chats[g.chatId - 1].kind == GroupChat
    && g.creatorId in g.participants
    && NoDuplicates(g.participants)
  }

  /** The schema's constraints, together with the positional primary keys. */
  predicate WellFormed(t: Tables) {
    && (forall k :: 0 <= k < |t.chats| ==> t.chats[k].id == k + 1)
    && (forall k :: 0 <= k < |t.groups| ==> t.groups[k].id == k + 1)
    && (forall k :: 0 <= k < |t.messages| ==> t.messages[k].id == k + 1)
    && DistinctUserIds(t.users)
    && UniqueDedupKeys(t.messages)
    && (forall k :: 0 <= k < |t.groups| ==> GroupRowOk(t.groups[k], t.chats))
  }
}
