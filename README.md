# Chat service core in Dafny

A model of the chat back end: the process-wide websocket connection manager,
the chat routes (one-shot message submission with chat resolution and
deduplication, the websocket receive loop, group creation, read receipts and
the history query) and the schema those routes write to.

The model has six modules:

- `Connections` (`connections.dfy`) holds the class `ConnectionManager`. Its
  fields are `activeConnections` (user id to list of websockets) and
  `chatLocks` (chat id to lock). Its methods change those fields as the
  source's methods change the dictionaries. A `send_text` call is one
  `Delivery` in the log that the sending methods return. That log is pinned
  to the recursive functions `PersonalSends` and `BroadcastSends`, and lemmas
  say who those reach.
- `Models` (`models.dfy`) holds the rows of the four tables, the column
  defaults, and the invariant `WellFormed` that the routes keep. It has
  three kinds of conditions:
  - Schema constraints: the unique `dedup_key`, and a group's non-null
    `chat_id`, which must refer to an existing chat. This is the one
    foreign key the model checks.
  - Positional ids: rows are never deleted, so a row's auto-incremented
    id is its position plus one.
  - Conditions the schema does not declare but `create_group` keeps: a
    group's chat is a group chat, its participants include its creator,
    and no participant is listed twice.
- `Keys` (`keys.dfy`) builds the two strings the routes form from integers.
  These are the canonical private-chat name `private:{min}:{max}` and the
  dedup source `{sender}_{chat}_{text}`, with integers rendered as Python's
  `str` does. It proves both strings injective, so equal strings come only
  from equal inputs.
- `ChatRules` (`chat_rules.dfy`) gives each endpoint as a function from the
  tables before to the tables after plus the answer: `CreateMessageSpec`,
  `ReceiveFrameSpec`, `CreateGroupSpec`, `MarkReadSpec` and `History`.
  Lemmas state what the routes promise: the error cases, reuse of one
  private chat by both parties, resubmissions rejected, participants
  resolved, read receipts idempotent, and history windowed and ordered.
- `ChatRoutes` (`chat_routes.dfy`) holds the class `Store`, the database as
  four mutable sequences. Its methods do what the route handlers do, step by
  step. Each is proved to leave the tables as the matching `ChatRules`
  function says and to give the same answer. Its pushes are proved to be
  `PersonalSends` of the stored message, or `SessionSends` of the messages a
  session stored. `WebsocketEndpoint` runs a whole connection: it
  connects, loops over the frames that arrive, then disconnects.
- `Wrappers` (`wrappers.dfy`) holds `Option`.

Behaviour of the code that the model keeps, and proves where stated:

- A stored websocket message and a read receipt are pushed only to the
  connections of one user: the sender of the message. Nobody else in the
  chat receives anything (`ChatRoutes.Store.ReceiveFrame`,
  `Connections.PersonalSendsReachOnlyThatUser`).
- `create_message` pushes nothing to websockets and takes no chat lock. Only
  the websocket path serialises the dedup check and the insert through the
  per-chat lock.
- Dedup holds for any digest function. A resubmission of the same body is
  rejected whenever the chat comes from an existing `chat_id` or from the
  recipient alone (`ChatRules.ResubmissionRejected`).
- There is one exception to dedup. A `chat_id` that does not exist, sent
  together with a `recipient_id`, makes a new private chat with the next id
  (`|chats| + 1`), with no lookup. It may give the canonical name to a second
  private chat (`ChatRules.StaleChatIdCreatesWithoutLookup`).
- What happens on resubmission depends on that `chat_id`:
  - If the `chat_id` is exactly that next id, the first call creates it. A
    resubmission then finds it and is rejected as a duplicate
    (`ChatRules.NextIdResubmission`).
  - For any other unknown `chat_id`, the resubmission creates yet another
    chat (`|chats| + 2`), hence another dedup source
    (`ChatRules.StaleChatIdResubmission`). It is stored again unless some
    stored message already has the new key: a digest collision, or a
    message that a websocket frame stored for chat id `|chats| + 2`.
- `recipient_id` is tested by truthiness: absent and `0` both count as "no
  recipient". `chat_id` is tested with `is not None`.
- The websocket path never checks that its `chat_id` exists.

## Model

| member | source | states |
|---|---|---|
| Connections.ConnectionManager.constructor | app/connection_manager.py:6-8 | a new manager has no connections and no locks |
| Connections.ConnectionManager.Connect | app/connection_manager.py:10-14 | the websocket is appended to the user's list; a missing list is created first; locks are untouched |
| Connections.ConnectionManager.Disconnect | app/connection_manager.py:16-20 | a user without an entry is left alone; a socket missing from an existing list raises (list.remove) and changes nothing; otherwise the first occurrence is removed and an emptied entry is deleted |
| Connections.ConnectionManager.SendPersonalMessage | app/connection_manager.py:22-25 | the deliveries are one per registered connection of the user, in list order, and none for a user without an entry |
| Connections.ConnectionManager.Broadcast | app/connection_manager.py:27-29 | the deliveries are the personal sends of each listed user, in the order of the list |
| Connections.ConnectionManager.GetChatLock | app/connection_manager.py:31-34 | an existing lock is returned unchanged; otherwise a fresh lock is stored for that chat only; existing locks are kept, and distinct chats keep distinct locks |
| Connections.FanoutInOrder | app/connection_manager.py:24-25 | the k-th write goes to the k-th connection, and there is one write per connection |
| Connections.FanoutReceivers | app/connection_manager.py:24-25 | the connections written to are exactly the list, and every write carries the message |
| Connections.PersonalSendsReachOnlyThatUser | app/connection_manager.py:22-25 | a personal send reaches exactly that user's registered connections, and nothing for a user without an entry |
| Connections.BroadcastSendsAppend | app/connection_manager.py:27-29 | broadcasting to two lists in turn writes the same as broadcasting to their concatenation |
| Connections.BroadcastReachesOnlyListed | app/connection_manager.py:27-29 | a broadcast writes only the message, and only to connections of listed users |
| Connections.RemoveFirstCutsFirst | app/connection_manager.py:18 | removing a listed socket cuts out its first occurrence and keeps the rest in order |
| Connections.RemoveFirstDropsOne | app/connection_manager.py:18 | removing a listed socket drops exactly one occurrence of it; an unlisted socket leaves the list as it is |
| Connections.ConnectDisconnectRestores | app/connection_manager.py:10-20 | connecting a socket the user did not hold and then disconnecting it restores the registry exactly |
| Models.ChatTypeValues | app/models.py:9-11 | the chat type enum has exactly the values "private" and "group", and each names its member |
| Keys.IntToDecimalInjective | app/routes/chat.py:41 | str() of an integer determines the integer, and equal integers give equal strings |
| Keys.PrivateChatNameSymmetric | app/routes/chat.py:98 | the private chat name does not depend on who writes to whom |
| Keys.PrivateChatNameInjective | app/routes/chat.py:98 | two pairs get the same private chat name iff they are the same unordered pair |
| Keys.DedupSourceInjective | app/routes/chat.py:111 | two dedup sources are equal iff sender, chat and text are all equal |
| ChatRules.ResolveChat | app/routes/chat.py:82-109 | 400 iff there is neither chat_id nor a truthy recipient_id; 404 iff there is an unknown chat_id and no recipient; on success the chats are unchanged or gain exactly the canonical private chat |
| ChatRules.ResolutionErrors | app/routes/chat.py:93-97 | the two error answers carry their details and store nothing |
| ChatRules.ExplicitChatUsed | app/routes/chat.py:84-86 | an existing chat_id is used as it is and no chat is created |
| ChatRules.StaleChatIdCreatesWithoutLookup | app/routes/chat.py:87-92 | an unknown chat_id with a recipient appends a new canonical private chat with the next id, without a lookup, so the name can end up on two private chats |
| ChatRules.PrivateChatLookup | app/routes/chat.py:98-107 | without chat_id, the first private chat with the canonical name is used if there is one, and otherwise one is created |
| ChatRules.PrivateResolutionSymmetric | app/routes/chat.py:95-107 | after a writes to b without chat_id, a later submission by b to a without chat_id resolves to the same chat and creates none, whatever rows came in between (given that the lookup takes the oldest matching chat) |
| ChatRules.NoChatIdKeepsPrivateChatsUnique | app/routes/chat.py:98-107 | resolution without chat_id never gives a name to a second private chat |
| ChatRules.AdmitKeepsKeysUnique | app/models.py:52 | inserting a message whose key is not taken keeps dedup keys unique |
| ChatRules.CreateMessageSpec | app/routes/chat.py:78-129 | create_message preserves the schema constraints, among them unique dedup keys |
| ChatRules.RestDedup | app/routes/chat.py:111-129 | with the chat resolved, a taken key answers 400 and stores nothing; a free key appends exactly one unread message with that chat, sender, text and key under the next id |
| ChatRules.ResubmissionRejected | app/routes/chat.py:111-117 | submitting the same body twice with an existing chat_id, or without chat_id, makes the second call answer 400 and change nothing; when the chat resolves, the answer is "Message already exists" |
| ChatRules.NextIdResubmission | app/routes/chat.py:84-117 | with a recipient and a chat_id equal to the next id, the first submission creates exactly that chat, and a resubmission is rejected with 400 and changes nothing |
| ChatRules.StaleChatIdResubmission | app/routes/chat.py:84-92 | with a recipient and a chat_id that is neither an existing id nor the next id (outside 1 to n+1 for n chats, ids positional), the first submission appends the canonical chat n+1 and the second resolves to yet another new chat n+2, so its dedup source differs from the first one's |
| ChatRules.ReceiveFrameSpec | app/routes/chat.py:35-64 | one websocket frame preserves the schema constraints |
| ChatRules.FrameRules | app/routes/chat.py:37-58 | an empty or missing text changes nothing; a taken key is skipped silently; otherwise one unread message for the user and the connection's chat is appended |
| ChatRules.FrameResubmissionSkipped | app/routes/chat.py:41-49 | the same frame received a second time is skipped and changes nothing |
| ChatRules.SelectUsersMembers | app/routes/chat.py:141-142 | the selected ids are exactly the requested ids of existing users |
| ChatRules.GroupParticipantsExact | app/routes/chat.py:141-145 | participants are exactly the creator plus the requested ids of existing users, none appears twice, and the creator appears exactly once |
| ChatRules.CreateGroupSpec | app/routes/chat.py:133-157 | create_group preserves the schema constraints; every group, the new one included, refers to a group chat and lists its creator |
| ChatRules.GroupCreation | app/routes/chat.py:133-157 | one group chat named after the group and one group are appended; the answer carries the new ids, the name, the creator and the resolved participants; users and messages are untouched |
| ChatRules.MarkReadSpec | app/routes/chat.py:162-170 | mark_message_read preserves the schema constraints |
| ChatRules.MarkReadChangesOnlyRead | app/routes/chat.py:164-168 | an unknown id answers 404 iff no message has that id, and changes nothing; otherwise only that message's read flag changes, to true, and the answer is the updated message |
| ChatRules.MarkReadIdempotent | app/routes/chat.py:164-170 | marking a message read a second time changes nothing and gives the same answer |
| Connections.PersonalSends | app/connection_manager.py:22-25 | what send_personal_message writes: one delivery per registered connection of the user (none without an entry), each carrying the message and going to one of that user's connections |
| Connections.BroadcastSends | app/connection_manager.py:27-29 | what broadcast writes: the personal sends of the listed users in turn; every delivery carries the message, and an empty list writes nothing |
| Connections.RemoveFirst | app/connection_manager.py:18 | list.remove: a listed socket makes the list one shorter; an unlisted socket leaves it as it is |
| Models.NewChat | app/models.py:34 | a new chat row; the type defaults to private when none is given (no contract of its own) |
| Models.NewMessage | app/models.py:55-60 | a new message row is unread, the column default of read |
| Models.WellFormed | app/models.py:52 | the invariant the routes keep: positional ids, distinct user ids, unique dedup keys, and each group referring to an existing group chat with its creator among participants listed once (no contract of its own; preserved by the rule functions) |
| Keys.PrivateChatName | app/routes/chat.py:88 | the f-string private:{min}:{max} with str() rendering (no contract of its own; see Keys.PrivateChatNameSymmetric and Keys.PrivateChatNameInjective) |
| Keys.DedupSource | app/routes/chat.py:111 | the f-string {sender}_{chat}_{text}, also built at app/routes/chat.py:41 (no contract of its own; see Keys.DedupSourceInjective) |
| ChatRules.MessageFrame | app/routes/chat.py:66-73 | the pushed message object: id, chat_id, sender_id, text, timestamp, read, with no notification field (no contract of its own) |
| ChatRules.ReadNotification | app/routes/chat.py:171-179 | the read-receipt object: the message's fields plus notification "message_read" (no contract of its own) |
| ChatRules.SelectUsers | app/routes/chat.py:141-142 | the user-id query: at most one id per user row, and only requested ids |
| ChatRules.GroupParticipants | app/routes/chat.py:141-145 | the participant list contains the creator, and otherwise only requested ids |
| ChatRules.PrivateChatNamed | app/routes/chat.py:99-102 | the private-chat lookup by name: a found index points at a private chat with that name and no earlier row matches; nothing is found iff no private chat has that name |
| ChatRules.Admit | app/routes/chat.py:114-125 | the dedup check: no message iff some stored message has the key; otherwise an unread message with the next id, that chat, sender, text, time and key (the same check at app/routes/chat.py:46-57) |
| ChatRules.AdmitInto | app/routes/chat.py:114-128 | the guarded insert: the admitted message is appended and nothing else changes; a taken key leaves the tables as they were; the constraints hold again |
| ChatRules.DedupKey | app/routes/chat.py:112 | the dedup key: the digest of the dedup source, also computed at app/routes/chat.py:42 (no contract of its own; see ChatRules.ResubmissionRejected) |
| ChatRules.Window | app/routes/chat.py:18 | offset then limit: at most limit rows, none when offset is past the end, and otherwise the k-th row is row offset + k |
| ChatRules.History | app/routes/chat.py:15-21 | get_history: at most limit messages, all of them stored messages of that chat, in timestamp order |
| ChatRules.SortByTimeCorrect | app/routes/chat.py:18 | ordering by timestamp gives a sorted permutation of the chat's messages |
| ChatRules.HistoryWindow | app/routes/chat.py:15-21 | the history holds only the chat's messages, in timestamp order, after skipping offset, at most limit of them, with the exact length; with no offset and a large enough limit it holds all of them; its k-th message is the (offset + k)-th of the chat's messages ordered by timestamp |
| ChatRoutes.SessionSpec | app/routes/chat.py:34-73 | a whole session of frames preserves the schema constraints |
| ChatRoutes.SessionSends | app/routes/chat.py:66-73 | what a session pushes: one delivery per stored message and connection of the sender, each to one of the sender's connections and carrying the frame of a stored message |
| ChatRoutes.SessionRepeatStoredOnce | app/routes/chat.py:41-49 | a text sent twice in a row over one connection is stored at most once, by the first frame |
| ChatRoutes.Store.CreateMessage | app/routes/chat.py:78-129 | the tables and the answer are those of the create_message rule, and the constraints hold again |
| ChatRoutes.Store.FindOrCreateChat | app/routes/chat.py:82-109 | the chat id or error is the one the resolution rule gives, and only the chats table changes, as that rule says |
| ChatRoutes.Store.ReceiveFrame | app/routes/chat.py:35-73 | the tables and the stored message are those of the frame rule; a non-empty text takes (or creates) the chat's lock; a stored message is pushed to the sender's own connections only; connections are unchanged |
| ChatRoutes.Store.ReceiveFrames | app/routes/chat.py:33-73 | the tables after the loop are those of the session rule, and the deliveries are each stored message pushed to the sender's connections in turn; connections are unchanged; old locks are kept, and the only lock added is the connection's chat, exactly when some frame has non-empty text |
| ChatRoutes.Store.WebsocketEndpoint | app/routes/chat.py:23-75 | an invalid token closes with a policy violation and changes no table, connection or lock; otherwise the session's tables and deliveries result, the only lock added is the connection's chat, exactly when some frame has non-empty text, and the registry returns to its old state when the socket was new |
| ChatRoutes.Store.MarkMessageRead | app/routes/chat.py:162-180 | the tables and answer are those of the read rule; on success a notification tagged message_read goes to the original sender's connections only |
| ChatRoutes.Store.CreateGroup | app/routes/chat.py:133-157 | the tables and the answer are those of the group rule, and the constraints hold again |

## Left out

- JSON and ISO-8601 rendering of the pushed frames: a frame is the `Frame` value, listing the fields of the JSON object, and a timestamp is an opaque integer the caller supplies (`utcnow()`).
- MD5: the dedup key is an arbitrary `digest` function of the dedup source. The lemmas therefore claim only what holds for every digest. Collisions are possible, as they are with MD5.
- Authentication: `get_current_user` and `decode_access_token` are not part of this model. The caller's id is a parameter, and the token's subject is an `Option`.
- Failed sends: every `send_text` succeeds. `send_personal_message` has no `try`, so in the source a failing send skips the user's remaining connections and the exception propagates. In `mark_message_read` this happens after `read = True` is committed. In the websocket loop it ends the session without `manager.disconnect`, which runs only on `WebSocketDisconnect`, so the socket stays registered.
- Failing commits and rollbacks, the 500 error of the websocket path, and `refresh` calls: every commit succeeds. In the source, the 500 leaves the websocket loop without `manager.disconnect`, so the socket stays registered.
- Concurrency: the model runs coroutines one at a time. A lock is kept only as an identity. What holding it excludes between concurrent connections is not modelled.
- Foreign keys other than a group's `chat_id`: the sender and chat of a message, a group's creator, and participant ids are not checked against their tables, so the websocket path can store a message for a chat that does not exist. A group's `chat_id` is checked (`Models.WellFormed`).
- Frames whose JSON is malformed, or whose `text` is truthy but not a string: a frame's text is modelled as an optional string. In the source, malformed JSON raises out of the loop without `manager.disconnect`, so the socket stays registered.
- `receive_text` errors other than a client disconnect: a session always ends with the disconnect.
- ChatRules.PrivateChatNamed: the name query has no `order_by`, so which of several matching private chats it returns is left to the database. The model takes the oldest one. `ChatRules.PrivateResolutionSymmetric` (for any rows appended in between) and the no-chat_id case of `ChatRules.ResubmissionRejected` rely on that choice once two private chats share a name, which an unknown `chat_id` can cause.
- ChatRules.History: `limit` and `offset` are natural numbers. Negative values depend on the database backend.
- ChatRules.History: the order among messages with equal timestamps is left to the database. The model keeps them in insertion order.
- ChatRules.GroupParticipants: the order of the selected users is left to the database. The model uses table order, and the lemmas speak only of membership and multiplicity.
- ChatRules.GroupParticipants: the creator is compared by user id, where the source compares ORM objects.
- User registration and the `users` table rows come from routes outside this model, so `Store` is built over a given list of users.
- The module-level `manager` singleton is passed to the route methods as a parameter.
