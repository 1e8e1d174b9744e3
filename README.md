# Common Notepad: session engine and credential table, in Dafny

This project models the server of a shared notepad: clients log in over
HTTP, then open a Socket.IO connection on which they edit one shared
document and see each other's cursors.

Two parts of `app.js` are modelled.

**Presence** (`presence.dfy`) is the session engine: the four Socket.IO
handlers `authenticate`, `text-change`, `cursor-position` and `disconnect`.
They act on two pieces of shared state, `connectedUsers` (socket id to
participant record) and `documentContent` (the whole document, replaced on
every edit). The class `Coordinator` holds that state together with:

- `joinOrder`, the iteration order of the JavaScript `Map`. `Map.set` keeps
  the position of a key that is already there and appends a new key.
  `Map.delete` removes the key. This order is what
  `Array.from(connectedUsers.values())` returns in the `document-state`
  snapshot.
- `outbox`, every send in order. `ToOne(target, event)` is `socket.emit` to
  the calling connection. `ToOthers(excluded, event)` is
  `socket.broadcast.emit`, which reaches every other socket, authenticated
  or not.

Each handler's contract gives its new registry, order, document and outbox
exactly. `Inbox(outbox, d)` is the sequence of events connection `d` is
sent, and the lemmas about it turn an appended send into what each
connection receives: the caller alone, or everyone but the caller. The payloads
keep the server's field names: `socketId` in `user-joined` and `userId` in
`text-change`, `cursor-position` and `user-left`.

Each handler runs to completion without yielding, so each is one method.
The contracts cover the handlers' branches:

- A handler from a connection with no entry changes nothing and sends
  nothing.
- `disconnect` without an entry is a no-op, so a second disconnect has no
  effect.
- `authenticate` on a registered connection overwrites its entry with
  zeroed cursor fields and keeps its place in the join order.

Four verified client methods (`SecondJoinSnapshot`, `EditEchoedToOthers`,
`CursorWithoutSelection`, `LeaveTwice`) show that the intended
scenarios (two users join, one edits, one leaves twice; a cursor update
without a selection) follow from these contracts and the `Inbox` lemmas alone.

**Credentials** (`credentials.dfy`) is the user table and the `/login`
check. `LoadUsers` is the per-row accumulation of the streamed CSV file,
applied to rows that are already parsed. A row counts only when its
username (`username || Username`) and its password (`password ||
Password`) are both non-empty, and a later row overwrites an earlier one.
`Login` is the boolean test that both login routes run. `LoginAgainstRows`
joins the two: a login against the loaded table succeeds exactly when the
last accepted row for that username carries the given password.

Where the intended design of the service and the code differ, the model follows the code:

- The design speaks of `selectionStart ?? position`. The code uses `||`,
  so a selection field of `0` also falls back to the position.
- The design names the id field `connectionId` in every payload. The code
  uses `socketId` in `user-joined` and `userId` elsewhere.
- The design asks for a non-empty username at `authenticate`. The code
  checks nothing, and the model accepts any string.
- The design gives the document a version counter. The code has
  none.
- The design mentions a "send to all" primitive. The code never uses it.

## Model

| member | source | states |
|---|---|---|
| Credentials.StringOr | app.js:59-60 | the `a \|\| b` choice on strings: the first operand when it is non-empty, else the second; the result is non-empty exactly when one operand is |
| Credentials.Accepted | app.js:61 | a row is stored exactly when one of its two username columns and one of its two password columns is non-empty |
| Credentials.AddRow | app.js:59-63 | an accepted row sets its username to its password, adding that key if it was new; a rejected row leaves the table as it is; every other username keeps its password |
| Credentials.UserTable | app.js:57-64 | folding the rows in stream order never stores an empty username or an empty password |
| Credentials.LoadUsers | app.js:57-64 | folding the rows in stream order, one `set` per accepted row, yields exactly `UserTable(rows)` |
| Credentials.UserTableDomain | app.js:59-63 | a username is in the table if and only if some row with truthy username and password (lower-case column first) names it |
| Credentials.UserTableLastWins | app.js:62 | the table maps a username to the password of the last accepted row naming it, whatever earlier rows said |
| Credentials.UserTableEntry | app.js:57-64 | every table entry comes from the last accepted row naming that user and holds that row's password |
| Credentials.Login | app.js:97-115 | success exactly when the table has the username and maps it to an equal password; a success echoes the username; a failure carries "Invalid credentials" (both login routes run this check) |
| Credentials.LoginAgainstRows | app.js:100-104 | against the loaded table, login succeeds if and only if the last accepted row for the username has the given password |
| Presence.Addressed | app.js:134-143 | who a send reaches: `socket.emit` only the calling connection, `socket.broadcast.emit` every connection but the caller (definition; its consequences are `InboxAfterEmit` and `InboxAfterBroadcast`) |
| Presence.Inbox | app.js:134-143 | the events a connection is sent, in send order; it is sent nothing exactly when no send reaches it |
| Presence.InboxAppend | app.js:134-143 | what a connection is sent by later sends comes after what it was sent before, in send order |
| Presence.InboxAfterEmit | app.js:134-137 | `socket.emit` reaches the calling connection and no other |
| Presence.InboxAfterBroadcast | app.js:140-143 | `socket.broadcast.emit` reaches every connection except the caller, once each, and the caller not at all |
| Presence.InboxAfterJoin | app.js:134-143 | after the two sends of `authenticate` the caller has been sent the snapshot only and every other connection the `user-joined` notice only |
| Presence.SelectionOr | app.js:176-177 | a selection field that is present and non-zero is kept; an absent or zero field becomes the cursor position |
| Presence.Values | app.js:136 | the snapshot list has one entry per key in iteration order, the i-th being the record of the i-th connection |
| Presence.Without | app.js:195 | deleting a key leaves exactly the other keys in the iteration order, still without repeats |
| Presence.WithoutAbsent | app.js:195 | deleting a key that is not in the order leaves the order unchanged |
| Presence.WithoutAt | app.js:195 | deleting the key at position `k` of a repeat-free order removes that position and keeps every other key in its relative order |
| Presence.WithoutKeepsOrder | app.js:195 | `Map.delete` on the iteration order: a present key's single position is cut out with the rest in order; an absent key changes nothing |
| Presence.TracksInsert | app.js:126 | `Map.set` keeps an existing key's position and appends a new key, so the order still lists each key once |
| Presence.ValuesExact | app.js:136 | the values list holds exactly the participant records present in the registry |
| Presence.TracksCount | app.js:23 | the iteration order is as long as the registry has entries |
| Presence.Coordinator.Users | app.js:136 | `Array.from(connectedUsers.values())`: as many records as the order has connections, the i-th being the record of the i-th connection |
| Presence.Coordinator.constructor | app.js:23-24 | at start there are no participants, the document is empty and nothing has been sent |
| Presence.Coordinator.OnAuthenticate | app.js:122-146 | the caller's entry becomes the username with zeroed cursor fields, overwriting any earlier one; no other entry and not the document changes; a new caller joins the end of the order, a known one keeps its place; appended: a `document-state` snapshot to the caller of the current document and the records of all entries, its own fresh one included, then `user-joined {username, socketId}` to all others |
| Presence.Coordinator.OnTextChange | app.js:149-168 | with no entry nothing changes and nothing is sent; otherwise the document becomes the new content, only the caller's cursor position changes (its selection and all other entries kept), and one `text-change {content, userId, username, cursorPosition}` to all others is appended |
| Presence.Coordinator.OnCursorPosition | app.js:171-188 | with no entry nothing changes and nothing is sent; otherwise only the caller's record changes: cursor set to the position, each selection end by the `\|\|` fallback; the document is kept; one echo to all others carrying the stored selection is appended |
| Presence.Coordinator.OnDisconnect | app.js:191-203 | with an entry: it is removed from the registry and the order, and one `user-left {userId, username}` to all others is appended; without one nothing changes and nothing is sent; afterwards the connection has no entry, so a second disconnect does nothing |

## Left out

- Express setup, static files, the HTML routes and `server.listen` (app.js:1-19, 206-237): HTTP plumbing with no state of the engine.
- Finding the CSV file, writing the default file, stream parsing and the reload after an error (app.js:27-56, 65-94): file I/O and an external parser. The model takes the parsed rows. `Login` takes the table as a parameter instead of reading the module-level `users` variable that the asynchronous load replaces.
- Delivery by Socket.IO, CORS, and whether a target socket is still open: the outbox records what is sent and to whom; `Inbox` is what a connection is sent while it is open.
- Concurrent execution of handlers: the handlers are synchronous and each runs to completion, so each is one method call.
- `console.log` output.
- In-place mutation of participant objects: the records are values in the map. No reference to a record leaves a handler except through `emit`, which serialises it, so value semantics give the same observable state.
- Presence.SelectionOr: models only an absent field and `0` as falsy. `NaN`, `""`, `null` and `false` would also fall back to the position in JavaScript.
- Payload types: positions are unbounded integers and contents are strings. Fractional, non-numeric or missing payload fields (which JavaScript would store as they come, or as `undefined`) are not modelled. A missing `data` object, which would make a handler throw, is not modelled either.
- Credentials.Login: takes the request's username and password as strings. A missing field (`undefined`) is not modelled; it can never match, since stored passwords are non-empty (`UserTable`).
- CSV cells hold strings, and the empty string stands for both an empty cell and an absent column. Both are falsy, so the loader treats them alike.
