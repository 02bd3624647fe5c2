# Chat client reconciliation and server presence registry, in Dafny

This project models the core of a realtime chat application.

- **Client (Frontend/src/App.jsx).** The React client keeps four kinds of state: a message list,
  the active-user roster, the list of users who are typing, and the draft with its stop-typing
  timer. Socket events (`new_message`, `message_deleted`, `user_joined`, `user_left`,
  `user_typing`, `join_response`) and user actions (send, delete, keystroke, emoji) change that
  state. The model is the class `Client.ChatClient`, with one method per handler. The list
  updaters the handlers apply are pure functions in `Ledger`, `Presence`, `Seqs` and `Text`.
  Socket emissions are appended to an `outbox` field.
- **Server (Backend/app.py).** The Flask-SocketIO server keeps an `active_users` dictionary from
  socket id to user name, and a message collection. The model is the class
  `Server.ChatServer`. The dictionary's insertion order is kept in `order` because
  `list(active_users.values())` reports names in that order. The collection is an abstract map
  from id to record. Every `emit` is recorded as an `Emission` with its addressed room and its
  `skip_sid`.

Modules: `Wrappers` (Option), `Seqs` (name lists: `NoDup`, `Without` = `filter(u => u !== x)`,
`Distinct` = `[...new Set(s)]`), `Text` (`String.prototype.trim`), `Ledger` (messages,
dedup-append, delete by `_id`, header grouping), `Presence` (typing list), `Client`, `Server`.

Timestamps are integer milliseconds. Clocks, the database, the auth and history requests, and
the user's confirmation dialog become method parameters.

Behaviour of the code that the model keeps, although one might expect otherwise:
- `user_joined` without `active_users` empties the roster. It does not add the joining name.
- An entry without `_id` counts as a duplicate of any other entry without `_id`. System notices
  are such entries.
- `message_deleted` removes every entry whose `_id` matches. With no `message_id` in the event,
  it removes every entry that has no `_id`.
- Deleting is never applied locally. The entry goes only when `message_deleted` arrives.
- Sending does not disarm the pending stop-typing timer. The timer still fires its own
  `typing false` later.
- Every keystroke emits `typing true`. Repeats are not suppressed.
- A `user_typing` event about the client's own user is applied like any other.
- Malformed payloads are not dropped. Fields the server always sends are modelled as plain
  values.
- The server does not check who deletes a message.

## Model

| member | source | states |
|---|---|---|
| `Client.ChatClient.constructor` | Frontend/src/App.jsx:14-36 | all lists and the draft start empty; not joined, no socket, no error, no timer armed, nothing emitted |
| `Client.ChatClient.AttachSocket` | Frontend/src/App.jsx:161 | the socket exists afterwards |
| `Client.ChatClient.OnConnect` | Frontend/src/App.jsx:72-80 | the client is online; it emits `join` with its name exactly when it has a name |
| `Client.ChatClient.OnConnectionLost` | Frontend/src/App.jsx:82-90 | `disconnect` and `connect_error` set the client offline and change nothing else |
| `Client.ChatClient.OnReconnect` | Frontend/src/App.jsx:92-95 | `reconnect` sets the client online and emits nothing |
| `Client.ChatClient.OnNewMessage` | Frontend/src/App.jsx:98-112 | a message whose `_id` is listed leaves the list unchanged; any other is appended at the end; the sound is due exactly when it was appended and its author differs from the own user; no assigned `_id` is ever listed twice |
| `Ledger.ArriveIdempotent` | Frontend/src/App.jsx:100-111 | applying the same `new_message` twice gives the list applying it once gives |
| `Ledger.ArriveKeepsUniqueIds` | Frontend/src/App.jsx:102-110 | if no assigned `_id` was listed twice before an arrival, none is after it |
| `Ledger.DeliverInOrder` | Frontend/src/App.jsx:100-111 | messages whose `_id`s are new and pairwise distinct end up after the existing entries, in delivery order |
| `Ledger.DeliverExtends` | Frontend/src/App.jsx:100-111 | a series of arrivals only extends the list; the old entries stay in front, unchanged |
| `Ledger.DeliverMakesPresent` | Frontend/src/App.jsx:102-110 | after a series of arrivals, every delivered `_id` is listed |
| `Ledger.DeliverPresentNoop` | Frontend/src/App.jsx:102-103 | arrivals whose `_id`s are all listed leave the list unchanged |
| `Ledger.DeliverSplit` | Frontend/src/App.jsx:100-111 | delivering `a + b` equals delivering `a`, then `b` |
| `Ledger.ReplayIsHarmless` | Frontend/src/App.jsx:100-111 | re-delivering a whole batch, as after a reconnect, leaves the list as the first delivery left it |
| `Client.ChatClient.OnMessageDeleted` | Frontend/src/App.jsx:115-118 | the list keeps exactly the entries whose `_id` differs from `message_id`; roster, typing list and draft are untouched; `_id`s stay unique |
| `Ledger.WithoutId` | Frontend/src/App.jsx:117 | an entry survives deletion iff it was listed and its `_id` differs from the deleted one; the list never grows |
| `Ledger.WithoutIdAbsent` | Frontend/src/App.jsx:117 | deleting an `_id` that no entry has is a no-op |
| `Ledger.WithoutIdIdempotent` | Frontend/src/App.jsx:117 | deleting the same `_id` twice equals deleting it once |
| `Ledger.WithoutIdConcat` | Frontend/src/App.jsx:117 | deletion distributes over concatenation, so the surviving entries keep their relative order |
| `Ledger.WithoutIdCommutes` | Frontend/src/App.jsx:117 | two deletions give the same list in either order |
| `Ledger.WithoutIdKeepsUniqueIds` | Frontend/src/App.jsx:117 | deletion never makes an assigned `_id` appear twice |
| `Ledger.NoticeKeepsUniqueIds` | Frontend/src/App.jsx:125-129 | appending a system notice, which has no `_id`, never makes an assigned `_id` appear twice |
| `Client.ChatClient.OnUserJoined` | Frontend/src/App.jsx:120-130 | the roster becomes `active_users`, or empty when absent, whatever it held; exactly one system notice "<name> joined the chat" is appended; `_id`s stay unique |
| `Client.ChatClient.OnUserLeft` | Frontend/src/App.jsx:132-146 | the roster becomes `active_users` when present; otherwise every occurrence of the name is removed; exactly one notice "<name> left the chat" is appended; `_id`s stay unique |
| `Seqs.Without` | Frontend/src/App.jsx:139 | a name survives the filter iff it was listed and differs from the removed one |
| `Seqs.WithoutAbsent` | Frontend/src/App.jsx:139 | filtering out a name that is not listed changes nothing |
| `Seqs.WithoutConcat` | Frontend/src/App.jsx:152 | the filter distributes over concatenation, so the remaining names keep their order |
| `Seqs.WithoutIdempotent` | Frontend/src/App.jsx:152 | filtering a name out twice equals doing it once |
| `Seqs.WithoutKeepsNoDup` | Frontend/src/App.jsx:152 | filtering never creates a duplicate |
| `Seqs.WithoutAt` | Backend/app.py:87 | in a list without duplicates, removing a name cuts out exactly its one position |
| `Seqs.Distinct` | Frontend/src/App.jsx:150 | `[...new Set(s)]` has no duplicates and holds exactly the elements of `s` |
| `Seqs.DistinctOfNoDup` | Frontend/src/App.jsx:150 | a list without duplicates passes through a `Set` unchanged |
| `Presence.WithTypist` | Frontend/src/App.jsx:150 | after adding a typist, the list has no duplicates and holds exactly the old names plus the new one |
| `Presence.WithTypistAppendsOnce` | Frontend/src/App.jsx:150 | on a list without duplicates, the existing order is kept and the name is appended only if absent |
| `Presence.WithTypistIdempotent` | Frontend/src/App.jsx:150 | announcing the same typist twice equals announcing them once, whatever the list held before |
| `Presence.TypingOnThenOff` | Frontend/src/App.jsx:148-154 | `isTyping` true then false for a name that was not listed restores the list |
| `Client.ChatClient.OnUserTyping` | Frontend/src/App.jsx:148-154 | true adds the name once and keeps the order; false removes every occurrence; no duplicates before or after; messages and roster untouched |
| `Client.ChatClient.OnJoinResponse` | Frontend/src/App.jsx:156-159 | the roster becomes `active_users`, or empty when absent |
| `Client.ChatClient.OnHistoryLoaded` | Frontend/src/App.jsx:171-182 | a history reply carrying `messages` replaces the list wholesale; a reply without it, or a failed fetch, leaves the list as it was; a history without repeated `_id`s keeps them unique |
| `Client.ChatClient.OnAuthSuccess` | Frontend/src/App.jsx:184-206 | a successful login or signup clears the error, sets the user name and marks the user joined |
| `Client.ChatClient.OnAuthRejected` | Frontend/src/App.jsx:198-210 | a rejected request shows the server's error, or "Authentication failed" when it gave none; the error is never blank |
| `Text.TrimStart` | Frontend/src/App.jsx:233 | the result is a suffix of the input; only white space was dropped; it does not start with white space |
| `Text.TrimEnd` | Frontend/src/App.jsx:233 | the result is a prefix of the input; only white space was dropped; it does not end with white space |
| `Text.Trim` | Frontend/src/App.jsx:233 | the trimmed draft neither starts nor ends with white space |
| `Text.TrimIsCore` | Frontend/src/App.jsx:233-237 | the trimmed draft is a slice of the draft with only white space outside it |
| `Text.TrimEmptyIff` | Frontend/src/App.jsx:233 | the trimmed draft is empty iff the draft is all white space |
| `Text.TrimIdempotent` | Frontend/src/App.jsx:237 | trimming the sent text again changes nothing |
| `Client.ChatClient.SendDraft` | Frontend/src/App.jsx:231-244 | with a non-blank draft, a socket and a joined user, it emits the trimmed draft, then `typing false`, and clears the draft; otherwise nothing changes; the armed timer is never touched |
| `Client.ChatClient.RequestDelete` | Frontend/src/App.jsx:246-253 | a confirmed request from a joined client with a socket emits `delete_message`; the message list is never changed |
| `Client.ChatClient.Keystroke` | Frontend/src/App.jsx:255-272 | the draft takes the typed value; a joined client emits `typing true` and leaves exactly one stop-timer armed, for its own name; otherwise nothing is emitted and the timer is untouched |
| `Client.ChatClient.FireStopTimer` | Frontend/src/App.jsx:267-270 | an armed timer emits exactly one `typing false` for the name it captured and is spent; with no timer armed nothing is emitted |
| `Client.ChatClient.OnEmojiClick` | Frontend/src/App.jsx:274-276 | the emoji is appended to the draft |
| `Ledger.GroupedRunSharesHeader` | Frontend/src/App.jsx:287-294 | in a run of entries shown without a header, every entry has the author of the entry that opened the run; no entry before the last is a system notice; each step is at most 300000 ms |
| `Ledger.HeaderOpensEveryRun` | Frontend/src/App.jsx:287-288 | the first entry, and every entry after a system notice, shows a header |
| `Server.ChatServer.constructor` | Backend/app.py:30 | the registry, the store and the emissions start empty |
| `Server.ChatServer.Connect` | Backend/app.py:76-79 | `connection_response` goes to the connecting client only |
| `Server.ChatServer.Disconnect` | Backend/app.py:81-94 | an unknown sid changes nothing and emits nothing; a known sid loses exactly its entry, the others are unchanged, and `user_left` with the remaining names is broadcast |
| `Server.ChatServer.Join` | Backend/app.py:96-116 | the sid's entry becomes the given name, or 'Anonymous'; a repeat join keeps the sid's place; `join_response` to the joiner and `user_joined` to all both carry every name after the insert |
| `Server.Names` | Backend/app.py:109 | `list(active_users.values())` lists, position by position, the names of the sids in insertion order |
| `Server.JoinNewAppendsName` | Backend/app.py:99-100 | a first join appends its name to the values; the earlier names keep their places |
| `Server.RejoinOverwritesInPlace` | Backend/app.py:100 | a repeat join replaces the name at that sid's position and nowhere else |
| `Server.LeaveDropsName` | Backend/app.py:85-93 | removing a registered sid removes exactly its name from the values; the rest keep their order; the registry stays well-formed |
| `Server.NamesCut` | Backend/app.py:87-93 | cutting a position out of the insertion order cuts that name out of the values |
| `Server.JoinThenLeaveRestores` | Backend/app.py:85-100 | a first join followed by the same socket's disconnect restores the registry exactly |
| `Server.ChatServer.SendMessage` | Backend/app.py:118-140 | the message, with defaults 'Anonymous' and '', is stored under the database's fresh id, which is an ObjectId's text, and broadcast with it; the store grows by one and every key stays an ObjectId; if the insert fails, nothing is stored and only the sender gets an error |
| `Server.Recipients` | Backend/app.py:91-148 | an emit reaches only connected clients, only the addressed room when one is given, never the skipped sid, and everyone when neither is given |
| `Server.TypingRelayAsWrittenReachesNobody` | Backend/app.py:145-148 | the relay as written reaches no client at all, whoever is connected |
| `Server.TypingRelayReachesOthers` | Backend/app.py:145-148 | the corrected relay reaches exactly the connected clients other than the sender |
| `Server.ChatServer.Typing` | Backend/app.py:142-148 | `user_typing` with defaults 'Anonymous' and false is relayed to everyone but the sender |
| `Server.ParseObjectId` | Backend/app.py:161 | an id parses iff it is 24 hexadecimal digits; the parsed key is a canonical lower-case ObjectId text |
| `Server.ParseCanonical` | Backend/app.py:161 | the text form of a stored id parses back to that same key |
| `Server.ParseIgnoresCase` | Backend/app.py:161 | two spellings that differ only in letter case name the same stored message |
| `Server.ChatServer.DeleteMessage` | Backend/app.py:150-172 | a missing or empty id returns with no change and no emit; an invalid id earns the sender an error; otherwise the message is removed if stored, and `message_deleted` is broadcast only when something was removed; every stored key stays an ObjectId |

## Findings

| source | as written | input that shows it | evidently intended | confidence | as-written member | corrected member |
|---|---|---|---|---|---|---|
| Backend/app.py:145-148 | `emit('user_typing', ..., skip_sid=request.sid)` inside the handler, without `broadcast=True`. Flask-SocketIO then addresses the sender's own room and skips the sender. | any `typing` event from a connected socket s: the room is {s}, and s is skipped | every other connected client receives `user_typing` | medium: depends on how Flask-SocketIO's handler-level `emit` picks its room; not executed | `Server.TypingRelayAsWrittenReachesNobody` | `Server.TypingRelayReachesOthers` |

## Left out

- Server.ChatServer.Typing: relays with the corrected addressing (see Findings), not the addressing as written.
- Rendering (Frontend/src/App.jsx:296-528): markup, emoji picker visibility, sidebar, auto-scroll, and the own-messages-only delete button. These are visual concerns.
- Audio playback: only the boolean `notify` returned by `OnNewMessage`.
- `formatTime` and ISO date parsing depend on the browser's locale and clock. Timestamps are integer milliseconds, and an unparsable timestamp (NaN) is not modelled.
- Socket.IO library behaviour: reconnection and backoff, transports, and queueing. The socket is replaced when the user name or join state changes, and the old one is disconnected; the model keeps a single socket flag.
- Client.ChatClient.FireStopTimer: an armed timer whose socket was replaced in the meantime would emit on a closed socket. The model emits regardless.
- The `fetch` calls for auth and history are I/O. Only their outcomes are methods. `isLoading`, the login form fields (`handleInputChange`) and the messages of network exceptions are not modelled.
- `handleJoin` (Frontend/src/App.jsx:220-229) adds one more `join_response` listener on every call. That is event-emitter wiring, not state logic.
- Missing fields in client payloads (for example "undefined joined the chat"). The server always sends these fields.
- Server.ChatServer.SendMessage: MongoDB's guarantee that a new id is a fresh ObjectId is a precondition on the `inserted` parameter. The id generator is not modelled.
- Client.ChatClient.OnHistoryLoaded: the fetched history comes from MongoDB, where `_id` is a primary key. The model therefore requires that its `_id`s are distinct.
- Flask routes (`/`, `GET` and `POST /api/messages`), MongoDB calls, `datetime.utcnow`, `print` logging and server startup. The store is a map; the clock and the id the database assigns are parameters.
- Database failures on delete, and payloads that are not dictionaries (an `AttributeError` in the handler).
- `bytes.fromhex` accepting white space inside a 24-character id: the model accepts exactly 24 hexadecimal digits.
- Server threading (`async_mode='threading'`): handlers run one at a time.
- Frontend/vite.config.js: build configuration, no logic.
