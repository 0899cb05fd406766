# Chat hub core — a Dafny model

This project models the real-time core of a channel-based chat backend. The model is written
in Dafny and verified by it.

Clients connect over WebSocket to a channel, authenticated by a token in the connection URI's
query. They receive:

- the channel's current user list;
- the newest 50 history entries;
- their own mute status.

They then exchange chat messages that are fanned out to every session in the channel and
stored in a per-channel history capped at 10,000 entries. A message can be recalled by its
author, or by an ADMIN when the author was not an ADMIN. Two HTTP endpoints silence a user in
a channel for 1 to 1440 minutes (`/chat/mute`) and lift the silence (`/chat/unmute`); they do
not check who calls them.

The model is organised as follows:

- `chat_types.dfy`: users, history entries, the frames sent to sessions, close statuses.
- `query.dfy`: the handshake query parser (`parseQuery`), with Java `String.split` semantics.
- `history.dfy`: the Redis history list: push-and-trim, the 50-entry replay, the 200-entry
  recall window, `LREM key 1 v`.
- `mutes.dfy`: the `t_mute` table and the mute endpoint's guard chain as a specification
  function, with its properties. `Mutes.Mute` is the row of
  backend/src/main/java/com/mrzeng/backend/chat/entity/Mute.java:11-18 without its database id.
- `chat_hub.dfy`: the WebSocket handler as a class.
  - The three registry maps, the history store and a per-session outbox are its fields.
  - The outbox records every frame a session is sent.
  - Each handler method is proved against the new registry, history and outbox it produces.
- `chat_controller.dfy`: the mute/unmute endpoints as a class over the mute table. They notify
  the hub.

Time is an integer count of clock ticks, with 60,000 ticks per minute. Each request reads the
clock once (`now`).

## Model

| member | source | states |
|---|---|---|
| ChatHandler.ChatHub.constructor | backend/src/main/java/com/mrzeng/backend/chat/handler/ChatWebSocketHandler.java:36-41 | the three session maps start empty and agree (the registry invariant holds); the history store is the one Redis already holds, bounded and with unique ids |
| ChatHandler.ChatHub.UserSessionCount | backend/src/main/java/com/mrzeng/backend/chat/handler/ChatWebSocketHandler.java:298-305 | the count is the number of the channel's sessions whose user has that id; zero iff no session of the channel belongs to the user (also when the channel is unknown) |
| ChatHandler.ChatHub.Broadcast | backend/src/main/java/com/mrzeng/backend/chat/handler/ChatWebSocketHandler.java:307-327 | every session of the channel gets the frame appended once; every other session's outbox is unchanged; nothing is sent to an unknown channel |
| ChatHandler.ChatHub.NotifyUserMuteStatus | backend/src/main/java/com/mrzeng/backend/chat/handler/ChatWebSocketHandler.java:108-129 | exactly the user's sessions in the channel get MUTE_STATUS; the expiry is carried only when muted and given |
| ChatHandler.ChatHub.ListUsers | backend/src/main/java/com/mrzeng/backend/chat/handler/ChatWebSocketHandler.java:135-149 | the list has no user id twice; every listed user is attached to a session of the channel; the listed ids are exactly the ids present |
| ChatHandler.ChatHub.SendInitialList | backend/src/main/java/com/mrzeng/backend/chat/handler/ChatWebSocketHandler.java:131-156 | for a known channel the session gets one INITIAL_LIST listing the present users; an unknown channel sends nothing; other sessions are unaffected |
| ChatHandler.ChatHub.SendHistory | backend/src/main/java/com/mrzeng/backend/chat/handler/ChatWebSocketHandler.java:158-169 | the session gets one HISTORY frame with the newest 50 entries, oldest first, or nothing when the channel's history is empty |
| ChatHandler.ChatHub.CheckAndSendMuteStatus | backend/src/main/java/com/mrzeng/backend/chat/handler/ChatWebSocketHandler.java:92-106 | the session gets one MUTE_STATUS; muted iff an unexpired row of the pair exists, and then the expiry of one such row; no expiry when not muted |
| ChatHandler.ChatHub.SendWelcome | backend/src/main/java/com/mrzeng/backend/chat/handler/ChatWebSocketHandler.java:82-89 | the admitted session gets, in order, the user list, the history replay (if any) and its mute status; other sessions get nothing |
| ChatHandler.ChatHub.Register | backend/src/main/java/com/mrzeng/backend/chat/handler/ChatWebSocketHandler.java:71-78 | the session enters all three maps; the registry invariant is kept; the user's sessions in the channel grow by exactly this one; the count-equals-1 test holds iff the user had no session there before |
| ChatHandler.ChatHub.Enter | backend/src/main/java/com/mrzeng/backend/chat/handler/ChatWebSocketHandler.java:71-89 | the admitted branch: registration; JOIN to every session of the channel iff the user had no session there before; then the private welcome |
| ChatHandler.ChatHub.AfterConnectionEstablished | backend/src/main/java/com/mrzeng/backend/chat/handler/ChatWebSocketHandler.java:44-90 | BAD_DATA iff the parsed query lacks token or channel; POLICY_VIOLATION iff the token fails or names no user; a closed connection changes nothing; otherwise the effects of Enter for the token's user and the query's channel |
| ChatHandler.ChatHub.AfterConnectionClosed | backend/src/main/java/com/mrzeng/backend/chat/handler/ChatWebSocketHandler.java:283-296 | the session leaves all three maps and every channel's set; the invariant is kept; LEAVE reaches the remaining sessions iff it was the user's last session in the channel; an unknown session sends nothing |
| ChatHandler.ChatHub.SaveToHistory | backend/src/main/java/com/mrzeng/backend/chat/handler/ChatWebSocketHandler.java:265-280 | the channel's list becomes the old list with the entry pushed at the tail and trimmed to the newest 10,000; other channels are unchanged; bounds and unique ids are kept |
| ChatHandler.ChatHub.PostChat | backend/src/main/java/com/mrzeng/backend/chat/handler/ChatWebSocketHandler.java:216-220 | the chat branch: CHAT with the fresh id reaches every session of the channel, then the entry is pushed and trimmed into the channel's history |
| ChatHandler.ChatHub.HandleRecallMessage | backend/src/main/java/com/mrzeng/backend/chat/handler/ChatWebSocketHandler.java:223-263 | no id, or no match in the newest 200, changes nothing; at the first match, if the requester may recall it, that entry is removed and RECALL reaches the whole channel; otherwise nothing changes |
| ChatHandler.ChatHub.HandleTextMessage | backend/src/main/java/com/mrzeng/backend/chat/handler/ChatWebSocketHandler.java:171-221 | an unregistered session is ignored; a silenced sender alone gets ERROR, with no broadcast and no history write; RECALL goes to the recall handler; otherwise the raw payload is broadcast as CHAT with the fresh id and stored; the registry never changes |
| ChatHandler.RegistryAdd | backend/src/main/java/com/mrzeng/backend/chat/handler/ChatWebSocketHandler.java:72-75 | adding a new session to the three maps keeps them in agreement |
| ChatHandler.RegistryRemove | backend/src/main/java/com/mrzeng/backend/chat/handler/ChatWebSocketHandler.java:284-288 | removing a session from the three maps keeps them in agreement |
| ChatHandler.RegisterThenClose | backend/src/main/java/com/mrzeng/backend/chat/handler/ChatWebSocketHandler.java:72-75 | closing right after admission restores the user and channel maps and the channel's session set (the channel key stays) |
| ChatHandler.SessionsOfAdd | backend/src/main/java/com/mrzeng/backend/chat/handler/ChatWebSocketHandler.java:75-78 | a new session of a user adds exactly itself to that user's sessions in the channel, and to no other user's |
| ChatHandler.SessionsOfRemove | backend/src/main/java/com/mrzeng/backend/chat/handler/ChatWebSocketHandler.java:284-291 | removing a session removes exactly it from its user's sessions |
| ChatHandler.SessionsOf | backend/src/main/java/com/mrzeng/backend/chat/handler/ChatWebSocketHandler.java:298-305 | the sessions counted for a user are among the channel's sessions |
| ChatHandler.SessionsOfPartition | backend/src/main/java/com/mrzeng/backend/chat/handler/ChatWebSocketHandler.java:298-305 | a session is counted for one user only, and every session with a user is counted for that user |
| ChatHandler.HistoryOkUpdate | backend/src/main/java/com/mrzeng/backend/chat/handler/ChatWebSocketHandler.java:277-279 | replacing one channel's list by a bounded list with unique ids keeps every list bounded with unique ids |
| ChatHandler.FirstMatchUnique | backend/src/main/java/com/mrzeng/backend/chat/handler/ChatWebSocketHandler.java:231-233 | the first window entry with the id is the only first match |
| ChatHandler.IdsSnoc | backend/src/main/java/com/mrzeng/backend/chat/handler/ChatWebSocketHandler.java:146-147 | appending a user to the list adds its id to the set of listed ids |
| Query.ParseQuery | backend/src/main/java/com/mrzeng/backend/chat/handler/ChatWebSocketHandler.java:329-340 | no query gives the empty map; otherwise a key is present iff some `&`-piece splits on `=` into exactly two parts with that key, and its value is that of the last such piece |
| Query.QueryParams | backend/src/main/java/com/mrzeng/backend/chat/handler/ChatWebSocketHandler.java:329-340 | the parameters of the query, built by putting the bindings in order (`PutAll`): empty without a query; keys and values never contain `=` or `&`, and values are never empty |
| Query.JavaSplit | backend/src/main/java/com/mrzeng/backend/chat/handler/ChatWebSocketHandler.java:332-334 | Java `split`: without the separator the string is its only piece; otherwise the pieces are separator-free and no trailing empty piece remains |
| Query.Binding | backend/src/main/java/com/mrzeng/backend/chat/handler/ChatWebSocketHandler.java:334-336 | a piece is kept only when its `=`-split has two parts; a kept binding has `=`-free key and value and a non-empty value |
| Query.PieceParts | backend/src/main/java/com/mrzeng/backend/chat/handler/ChatWebSocketHandler.java:332-336 | the key and value of a binding come from inside its `&`-piece, so they contain no `&` |
| Query.SplitAllChars | backend/src/main/java/com/mrzeng/backend/chat/handler/ChatWebSocketHandler.java:332 | splitting invents no characters: every piece consists of characters of the input |
| Query.JavaSplitChars | backend/src/main/java/com/mrzeng/backend/chat/handler/ChatWebSocketHandler.java:332-334 | the same for the Java split |
| Query.PutAllLastWins | backend/src/main/java/com/mrzeng/backend/chat/handler/ChatWebSocketHandler.java:333-338 | putting the bindings in order leaves exactly the bound keys, each with its last binding |
| Query.LastWinsStep | backend/src/main/java/com/mrzeng/backend/chat/handler/ChatWebSocketHandler.java:335-337 | one more piece overwrites its key's entry (or changes nothing when it yields no binding) |
| Query.LastBindingWins | backend/src/main/java/com/mrzeng/backend/chat/handler/ChatWebSocketHandler.java:333-338 | a binding with no later binding of the same key is the key's value |
| Query.UnboundKeyAbsent | backend/src/main/java/com/mrzeng/backend/chat/handler/ChatWebSocketHandler.java:333-338 | a key no piece binds is absent |
| Query.SplitAll | backend/src/main/java/com/mrzeng/backend/chat/handler/ChatWebSocketHandler.java:332 | the split has at least one piece and no piece contains the separator |
| Query.JoinSplitAll | backend/src/main/java/com/mrzeng/backend/chat/handler/ChatWebSocketHandler.java:332 | rejoining the pieces with the separator gives back the input |
| Query.SplitAllJoin | backend/src/main/java/com/mrzeng/backend/chat/handler/ChatWebSocketHandler.java:332 | separator-free pieces are recovered exactly by splitting their join |
| Query.SplitAllNoSep | backend/src/main/java/com/mrzeng/backend/chat/handler/ChatWebSocketHandler.java:332 | a string without the separator splits into itself |
| Query.SplitAllPrefix | backend/src/main/java/com/mrzeng/backend/chat/handler/ChatWebSocketHandler.java:332 | a separator-free prefix followed by the separator is the first piece on its own |
| Query.StripTrailingEmpty | backend/src/main/java/com/mrzeng/backend/chat/handler/ChatWebSocketHandler.java:332 | the result is a prefix of the pieces, does not end in an empty piece, and only empty pieces were dropped |
| Query.BindingOfPair | backend/src/main/java/com/mrzeng/backend/chat/handler/ChatWebSocketHandler.java:334-336 | `k=v` with `=`-free parts and a non-empty value is kept as `k -> v` |
| History.NewestIsSuffix | backend/src/main/java/com/mrzeng/backend/chat/handler/ChatWebSocketHandler.java:161 | `LRANGE -n -1` is the suffix of that length, element by element in the original order |
| History.Newest | backend/src/main/java/com/mrzeng/backend/chat/handler/ChatWebSocketHandler.java:161 | `LRANGE/LTRIM -n -1` keep min(length, n) elements |
| History.Appended | backend/src/main/java/com/mrzeng/backend/chat/handler/ChatWebSocketHandler.java:277-279 | after push and trim the list holds 1 to 10,000 entries and ends with the new entry |
| History.AppendedKeepsNewest | backend/src/main/java/com/mrzeng/backend/chat/handler/ChatWebSocketHandler.java:277-279 | nothing is dropped while there is room (the list grows by exactly the new entry), and at the cap exactly the oldest entry is dropped |
| History.AppendedUnique | backend/src/main/java/com/mrzeng/backend/chat/handler/ChatWebSocketHandler.java:216-220 | pushing an entry with a fresh id keeps ids unique |
| History.RemoveFirst | backend/src/main/java/com/mrzeng/backend/chat/handler/ChatWebSocketHandler.java:241 | `LREM key 1 v`: the length drops by one exactly when `v` is in the list |
| History.RemoveFirstMultiset | backend/src/main/java/com/mrzeng/backend/chat/handler/ChatWebSocketHandler.java:241 | `LREM key 1 v` removes one occurrence of `v`, when there is one, and nothing else (as multisets) |
| History.RemoveFirstAt | backend/src/main/java/com/mrzeng/backend/chat/handler/ChatWebSocketHandler.java:241 | it removes the element at the first index holding the value; the rest keep their order |
| History.RemoveFirstAbsent | backend/src/main/java/com/mrzeng/backend/chat/handler/ChatWebSocketHandler.java:241 | an absent value leaves the list unchanged |
| History.RemoveFirstUnique | backend/src/main/java/com/mrzeng/backend/chat/handler/ChatWebSocketHandler.java:241 | removal keeps ids unique |
| History.FindById | backend/src/main/java/com/mrzeng/backend/chat/handler/ChatWebSocketHandler.java:231-233 | returns the first window index with the id; none iff no window entry carries it |
| History.MayRecall | backend/src/main/java/com/mrzeng/backend/chat/handler/ChatWebSocketHandler.java:235-239 | an author may always recall their entry; an ADMIN's entry, and any recall by a non-ADMIN, needs the author; an ADMIN may recall a non-ADMIN's entry |
| History.RecallRemovesThatEntry | backend/src/main/java/com/mrzeng/backend/chat/handler/ChatWebSocketHandler.java:228-241 | with unique ids, removing the matched window entry removes exactly that position of the full list |
| Mutes.UnknownTargetRejected | backend/src/main/java/com/mrzeng/backend/chat/controller/ChatController.java:30-33 | a missing target is rejected with "用户不存在" and the table is untouched |
| Mutes.MuteSpec | backend/src/main/java/com/mrzeng/backend/chat/controller/ChatController.java:27-68 | the guard chain never touches another pair's rows; every rejection before the purge leaves the table unchanged; AlreadyMuted only deletes and leaves a row of the pair; success expires after now, silences the user, and the new row is the pair's only row |
| Mutes.IsMuted | backend/src/main/java/com/mrzeng/backend/chat/handler/ChatWebSocketHandler.java:179-184 | the chat gate (expiry strictly after now): a silenced user always has a row of the pair |
| Mutes.HasRecord | backend/src/main/java/com/mrzeng/backend/chat/controller/ChatController.java:55-59 | the pair has a row exactly when an unmute would delete something |
| Mutes.Purged | backend/src/main/java/com/mrzeng/backend/chat/controller/ChatController.java:49-52 | the purge only deletes, keeps every other pair's rows, and never changes whether the user is silenced now |
| Mutes.Unmuted | backend/src/main/java/com/mrzeng/backend/chat/controller/ChatController.java:78-80 | the unmute delete removes exactly the pair's rows |
| Mutes.AdminTargetRejected | backend/src/main/java/com/mrzeng/backend/chat/controller/ChatController.java:35-38 | an ADMIN target is rejected whatever the duration |
| Mutes.DurationBounds | backend/src/main/java/com/mrzeng/backend/chat/controller/ChatController.java:40-46 | above 1440 is too long, at most 0 is not positive, each with the table unchanged; 1..1440 passes both checks |
| Mutes.AbsentDurationIsTen | backend/src/main/java/com/mrzeng/backend/chat/controller/ChatController.java:28 | an absent duration behaves as 10 minutes |
| Mutes.PurgeBeforeCheck | backend/src/main/java/com/mrzeng/backend/chat/controller/ChatController.java:48-61 | the purge drops exactly the pair's rows with expiry before now; AlreadyMuted iff a row of the pair with expiry at or after now remains |
| Mutes.SuccessfulMute | backend/src/main/java/com/mrzeng/backend/chat/controller/ChatController.java:63-73 | success inserts exactly one row expiring `d` minutes after now, it is the pair's only row, and the user is then silenced |
| Mutes.MuteTwiceRejected | backend/src/main/java/com/mrzeng/backend/chat/controller/ChatController.java:48-61 | a second mute of the pair up to the first row's expiry is rejected as already muted |
| Mutes.RemuteAfterExpiry | backend/src/main/java/com/mrzeng/backend/chat/controller/ChatController.java:48-68 | once every row of the pair expired before now, a valid mute of a non-ADMIN succeeds |
| Mutes.BoundaryRowBlocksButDoesNotSilence | backend/src/main/java/com/mrzeng/backend/chat/controller/ChatController.java:48-61 | a row expiring exactly now neither silences the user nor is purged, so a new mute is refused |
| Mutes.UnmuteClears | backend/src/main/java/com/mrzeng/backend/chat/controller/ChatController.java:77-80 | unmute leaves no row of the pair, so the user is not silenced; other rows stay; a second unmute changes nothing |
| ChatControl.RowCount | backend/src/main/java/com/mrzeng/backend/chat/controller/ChatController.java:55-59 | the row count of the pair is positive iff the pair has a row |
| ChatControl.RowsNonEmpty | backend/src/main/java/com/mrzeng/backend/chat/controller/ChatController.java:55-59 | the pair's row set is non-empty exactly when the pair has a row |
| ChatControl.ChatController.constructor | backend/src/main/java/com/mrzeng/backend/chat/controller/ChatController.java:18-25 | the controller is wired to the injected handler and starts from the rows the `t_mute` table already holds (the table is persistent, not created by the controller) |
| ChatControl.ChatController.MuteUser | backend/src/main/java/com/mrzeng/backend/chat/controller/ChatController.java:27-74 | outcome and new table are those of the guard chain; on success exactly the target's sessions in the channel get MUTE_STATUS with the new expiry; on rejection nothing is sent |
| ChatControl.ChatController.UnmuteUser | backend/src/main/java/com/mrzeng/backend/chat/controller/ChatController.java:76-86 | every row of the pair is deleted and the target's sessions in the channel get MUTE_STATUS "not muted" |

### Behaviour worth noting

- The already-muted check (ChatController.java:55-61) counts every remaining row of the pair,
  whatever its expiry. The purge drops rows with `expire < now`, and the chat gate needs
  `expire > now`. So a row that expires exactly at `now` blocks a new mute but does not silence
  the user. `Mutes.BoundaryRowBlocksButDoesNotSilence` exhibits the case.
- The mute endpoint rejects an unknown target with "用户不存在" before any other check
  (ChatController.java:30-33).
- A JSON payload that is not a RECALL command is broadcast and stored word for word as chat
  content (ChatWebSocketHandler.java:209).

## Left out

- Concurrency: the maps are concurrent in the source, and requests run one at a time in the
  model.
- Transport: sends never fail and every session is treated as open. The `isOpen` checks are not
  modelled, and neither are send failures. Closing a rejected connection is the `Closed`
  result.
  - `notifyUserMuteStatus` and the RECALL fan-out catch and log an IOException.
  - `broadcast`, `sendInitialList`, `sendHistory` and `checkAndSendMuteStatus` pass it up to
    their caller.
  - In the source, one failed send therefore stops the rest of a broadcast. In
    `handleTextMessage` it also skips `saveToHistory`, because the broadcast runs first. In
    admission, a failed JOIN send skips the private welcome.
  - None of these lost effects is modelled.
- JSON encoding and decoding of frames and history entries: frames are datatypes. Inbound
  payload parsing is the `Parsed` parameter.
- JWT: token validity and the token's user id are parameters (`validToken`, `userIdOf`). The
  user table is the `users` map. The database is not part of this model.
- The clock and UUID generation are parameters (`now`, `freshId`). The source reads the clock
  several times per request; the model reads it once. Timestamps are integer ticks, not
  `LocalDateTime`.
- Redis and MyBatis are modelled as in-memory values: the history map and the mute table set.
  Two identical mute rows collapse into one in the set; the source's auto-increment row id,
  which would keep them apart, is left out.
- Avatars are display bytes and are not modelled.
- Authorisation of the mute endpoints is not modelled, because the source has none: any caller
  of `/chat/mute` and `/chat/unmute` can silence or release any non-ADMIN user.
- The Redis history and the `t_mute` table outlive the process. The constructors therefore take
  the stored history and rows as parameters; they do not start them empty.
- The hub receives the mute table as the `mutes` argument on each call. That argument is not tied
  to `ChatControl.ChatController.table`; a caller connects the two.
- ChatHandler.ChatHub.ListUsers: the source lists users in the set's insertion order, taking each
  user's first session. The model proves which users are listed, not their order.
- ChatHandler.ChatHub.AfterConnectionEstablished: requires a session id not already registered.
  The server gives every connection a fresh id.
- ChatHandler.ChatHub.HandleTextMessage: requires the fresh message id to be unused in the
  channel's history, as a random UUID is.
- ChatControl.ChatController.MuteUser: the `Long`/`Integer` request parameters are unbounded
  integers. Parameter binding errors are not modelled.
- ChatControl.ChatController.UnmuteUser: the reply text "解除禁言成功" is not returned; the
  endpoint always succeeds.
