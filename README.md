# Call signalling server: room registry and socket handlers

This project is a Dafny model of the signalling core of a small
peer-to-peer call server (`server.js`). The server keeps one process-wide
registry from room id to a room record. A room record holds:

- `users`: a member table from socket id to `{userId, userName, socketId}`;
- `callActive`: whether a call is running;
- `creator`: the user id of whoever last started a call.

Socket event handlers change the registry and ask the transport to deliver
messages:

- `join-room`, `start-call`, `end-call` and `disconnect` change the registry
  in place;
- `accept-call` only reads the registry;
- `offer`, `answer`, `ice-candidate` and `toggle-mute` only relay a message.

Node runs each handler to completion before the next one starts, so the
handlers are modelled as sequential calls. Each handler returns the list of
deliveries it asks for: an `Event` is one message addressed to one socket.

How the pieces map:

- `Types`: string aliases for the ids, names and opaque payloads, and `Option`.
- `Members`: a room's member table. It is a JavaScript `Map`, so it is
  modelled as a sequence in insertion order, keyed by socket id:
  - `Upsert` is `Map.set`: it overwrites an entry in place, or appends a new one;
  - `Remove` is `Map.delete`;
  - `Get` is `Map.get`;
  - `FindByUserId` is `Array.from(values()).find(...)`.
- `Signals`: the message kinds and `Broadcast`, which is
  `socket.to(roomId).emit` (every member of the room except the sender).
  `Direct` is `socket.to(socketId).emit`. `Inbox` collects what one socket
  receives; "exactly once" properties are stated through it.
- `Rooms`: the room record, the registry invariant (`RegistryOk`) and the
  join and disconnect steps as functions on values. The disconnect walk is
  given twice: as the room-by-room fold the handler performs, and in closed
  form.
- `Registry`: class `Server`, which holds the registry (`rooms`) and its key
  order (`order`). `rooms.forEach` follows that key order, and the order
  decides the order of `user-left` messages. Each mutating handler is a
  method of `Server`.
- `Relays`: the read-only handlers, as functions.
- `Scenario`: a client of the handlers. It walks through the two-party call
  from the first join to both peers leaving and a fresh join, and states the
  exact registry after each phase.

Three consequences of the code are kept:

- `accept-call` with two members sharing the creator's user id reaches the
  first such member in insertion order, not an arbitrary one.
- A negotiation relay whose `to` is the sender's own socket delivers nothing,
  because `socket.to` never delivers back to the emitting socket.
- `accept-call` replies through `io.to`, which does not exclude the sender. A
  creator accepting its own call is therefore answered.

## Model

| member | source | states |
|---|---|---|
| Members.IndexOf | server.js:43 | the position of a socket id in a member table: absent exactly when the key is not there, otherwise the first entry with that key |
| Members.Get | server.js:147 | `room.users.get(socket.id)`: none exactly when the socket is not a member, otherwise an entry of the table stored under that socket id |
| Members.UpsertKeys | server.js:43 | `room.users.set` keeps the table free of duplicate keys; an existing key keeps its position, a new key goes last |
| Members.UpsertGet | server.js:43 | after `room.users.set`, the socket id maps to the new entry (last write wins) and every other key maps to what it did before |
| Members.Upsert | server.js:43 | `room.users.set`: the new entry is in the table, every other entry was there before, every entry under another key stays, and the table grows by one entry exactly when the socket id was not yet a key |
| Members.Remove | server.js:148 | `room.users.delete` drops exactly the entries with that socket id and keeps every other entry; the order is stated by `Members.RemoveAt` |
| Members.RemoveAt | server.js:148 | in a table without duplicate keys, deleting a present key cuts out its one entry and keeps every other entry in insertion order (the order `room-users` lists and `.find` scans) |
| Members.RemoveKeyed | server.js:148 | deleting keeps the table free of duplicate keys, and deleting a present key shrinks it by exactly one entry |
| Members.RemoveGet | server.js:148 | after `room.users.delete`, the socket id maps to nothing and every other key maps to what it did before |
| Members.FindByUserId | server.js:81-82 | `.find` on the member list: none exactly when no entry has that user id, otherwise the first entry, in insertion order, that has it |
| Signals.Broadcast | server.js:46-50 | a room emission reaches only members of the room other than the sender, all carrying the same message; in a table without duplicate keys no member gets two deliveries |
| Signals.BroadcastInbox | server.js:46-50 | a room emission delivers the message exactly once to every member other than the sender, and to nobody else |
| Signals.Direct | server.js:96-118 | `socket.to(to).emit` where `to` names a socket: at most one delivery, none exactly when `to` is the sender, and it carries the message to `to` |
| Signals.DirectInbox | server.js:96-101 | a single-socket emission reaches the named socket exactly once unless it is the sender, and nobody else |
| Rooms.Without | server.js:158 | `rooms.delete` on the key order: exactly the other ids remain |
| Rooms.WithoutAt | server.js:158 | in an order without duplicates, deleting an id cuts out its one occurrence and keeps every other id in place, so later `forEach` walks (and their `user-left` messages) keep the old order |
| Rooms.Joined | server.js:34-43 | the registry after a join: the room id is added if it was unknown, every other room is untouched, the joiner is a member, every earlier member under another socket id stays, and the room's call flag and creator are those it had before (none for a new room) |
| Rooms.JoinKeepsRegistryOk | server.js:34-43 | join keeps the registry invariant (every room non-empty and keyed, key order listing each room once); a room it creates holds only the joiner, with no call and no creator, whatever an earlier room of that id held |
| Rooms.JoinNotices | server.js:46-54 | what a join sends: `user-joined` with the joiner's fields to members other than the joiner, and last the `room-users` table to the joiner |
| Rooms.NoticesInbox | server.js:46-54 | in a table without duplicate keys, each member other than the joiner receives exactly one `user-joined`, the joiner exactly one `room-users`, nobody anything else |
| Rooms.JoinInbox | server.js:43-54 | after a join, the joiner alone receives one `room-users` listing every member including itself, each earlier member receives exactly one `user-joined`, and nobody else receives anything; the joiner's key is added once or kept in place |
| Rooms.Leave | server.js:146-160 | one visit of the `forEach`: no room is added, rooms other than the visited one are untouched, and if the visited room survives the socket is no longer a member of it |
| Rooms.LeaveNotices | server.js:151-154 | the messages of one visit are all `user-left`, none goes to the departing socket, and a room that did not hold the socket sends nothing |
| Rooms.Disconnected | server.js:145-161 | the walk over a list of room ids adds no room; what it does to each room is stated by `Rooms.DisconnectedIsDeparted` and `Rooms.DisconnectedUnvisited` |
| Rooms.DisconnectedUnvisited | server.js:145-161 | a room id the walk has not reached yet is present iff it was before, with its room unchanged |
| Rooms.DisconnectNotices | server.js:151-154 | every message of the walk is a `user-left`, and none goes to the departing socket |
| Rooms.DisconnectedIsDeparted | server.js:145-161 | the room-by-room walk equals the closed form: visited rooms lose the socket and disappear iff that empties them, and unvisited rooms are untouched |
| Rooms.DisconnectSpec | server.js:145-161 | after a disconnect the socket is in no room; rooms that did not hold it are unchanged; a room that held it loses exactly that entry and is deleted iff it was the last member; the registry invariant holds again |
| Rooms.LeaveInbox | server.js:146-154 | visiting one room sends a socket exactly one `user-left`, with the names stored in that room, iff the room held both it and the departing socket; otherwise nothing |
| Rooms.DisconnectInbox | server.js:145-161 | each socket receives exactly the sequence `Rooms.LeftFor`: one `user-left` per room of the registry as it was that held both it and the departing socket, carrying that room's stored names, in key order; the departing socket receives none |
| Rooms.DisconnectInboxCount | server.js:151-154 | each socket receives as many `user-left` messages as rooms it shared with the departing socket; the departing socket receives none |
| Rooms.DisconnectInboxContent | server.js:151-154 | every `user-left` a socket receives comes from a room it shared with the departing socket and carries the user id and name stored in that room's entry |
| Registry.Server.constructor | server.js:22 | the registry starts empty and satisfies its invariant |
| Registry.Server.JoinRoom | server.js:28-55 | create the room if it is unknown (key appended to the order), insert or overwrite the sender's entry, keep the registry invariant, send the notices of `Rooms.JoinNotices` |
| Registry.Server.StartCall | server.js:58-73 | on a known room: call active, creator set to the sender's user id, `incoming-call` to the other members; on an unknown room: nothing changes and nothing is sent |
| Registry.Server.EndCall | server.js:130-138 | on a known room: call inactive, creator kept, `call-ended` to the other members; on an unknown room: nothing changes and nothing is sent |
| Registry.Server.Disconnect | server.js:141-162 | the registry becomes the walk `Rooms.Disconnected` over the old key order, the order keeps the surviving ids, the invariant holds, and the messages are those of the walk |
| Registry.Server.VisitRooms | server.js:145-161 | the `forEach` loop: after visiting a list of ids, the registry, order and messages equal the walk over that list |
| Registry.Server.LeaveRoom | server.js:146-160 | one visit: remove the socket's entry if present, notify the rest, delete the room (and its key) if it is now empty |
| Relays.CreatorSet | server.js:80 | JavaScript truthiness of `room.creator`: set means present and not the empty string; it has no contract of its own, and `Relays.AcceptCall` states its effect |
| Relays.AcceptCall | server.js:76-91 | at most one `call-accepted` with the acceptor's names. It is sent iff the room exists, its creator is set (neither null nor empty) and some member has the creator's user id; it then goes to the socket of the first such member in insertion order |
| Relays.AcceptCallInbox | server.js:79-90 | `accept-call` reaches at most one socket, and that socket at most once |
| Relays.RelayOffer | server.js:94-102 | `offer` delivers at most one message, none iff `to` is the sender; it is an `offer` going to `to` with the payload unchanged, the sender's socket id as `from`, the client's `from` as `userId` and the client's `userName` |
| Relays.RelayAnswer | server.js:104-111 | as `offer`, for an `answer` message, which carries no user name |
| Relays.RelayIceCandidate | server.js:113-119 | as `offer`, for an `ice-candidate` message, which carries no user name |
| Relays.NegotiationIsDirect | server.js:94-119 | each negotiation relay delivers exactly one message to `to` (none if `to` is the sender) and none to anyone else, carrying the payload unchanged and the sender's socket id as origin |
| Relays.ToggleMute | server.js:122-127 | every `user-muted` carries the given user id and flag and goes to someone other than the sender; an unknown room reaches nobody |
| Relays.ToggleMuteInbox | server.js:122-127 | `toggle-mute` reaches every other member of a known room exactly once and nobody else |
| Scenario.JoinFirst | server.js:34-54 | the first join of an unknown room creates it holding only the joiner, who receives only the member table |
| Scenario.JoinSecond | server.js:43-54 | a second joiner is appended; the first member receives `user-joined` and the joiner receives both entries in join order |
| Scenario.SecondJoinState | server.js:43 | the second joiner's entry goes after the first one's |
| Scenario.SecondJoinNotices | server.js:46-54 | on the second join, only the first member hears `user-joined`, and the joiner receives both entries in join order |
| Scenario.Ring | server.js:61-72 | starting a call marks the room active with the caller as creator and rings only the other member |
| Scenario.Accept | server.js:76-91 | when the callee accepts, the creator's user id resolves to the caller's socket, which alone receives `call-accepted` with the callee's names |
| Scenario.HangUp | server.js:133-137 | ending the call clears the flag, keeps the creator and notifies only the other member |
| Scenario.FirstLeave | server.js:145-161 | when one of two members disconnects, the other stays alone in the room with the call state kept, and hears `user-left` with the stored names |
| Scenario.LastLeave | server.js:145-161 | when the last member disconnects, the room is deleted and nobody is told |
| Scenario.LeaveBoth | server.js:34-43 | after both members disconnect, the room id is gone from the registry and its order, and a later join of the same id creates a fresh room holding only the new joiner, with no call state |
| Scenario.TwoPartyCall | server.js:22-162 | a whole run (two joins, ring, accept, hang-up, both disconnects, a fresh join) ends with one room holding only the late joiner and no call state |

## Left out

- HTTP, CORS and socket.io server setup, `server.listen` and the port are process plumbing and not part of this model.
- The `/status` endpoint is left out. It reads the registry size and the transport's live-connection count, a value of the socket library.
- `console.log` calls are left out; they only log.
- Transport behaviour is not modelled: `socket.join`, the actual delivery of emissions, delivery to dead sockets, and delivery order. Handlers return their deliveries as a list of events.
- The transport's group for a room id is assumed to be exactly the registry's member table for that room. `socket.join` and the table insert happen together, and the transport drops a socket from its groups on disconnect.
- Room ids and socket ids are assumed not to collide. A room id equal to some socket id would reach that socket's own group too.
- The relays assume that `to` names a socket. `to` is a client-supplied string passed straight to `socket.to`. When it names a room, the transport delivers the offer, answer or candidate to every member of that room except the sender, not to one socket. `Signals.Direct` and `Relays.NegotiationIsDirect` do not cover that case.
- Concurrency is not modelled; Node runs each handler to completion, so handlers are sequential calls.
- Payloads (`offer`, `answer`, `candidate`) are opaque strings and are never inspected.
- Missing or non-string message fields (JavaScript `undefined`, other types) are not modelled. Every field is a string, and `muted` is a boolean.
- Relays.ToggleMute: its own contract does not say that every other member is reached; `Relays.ToggleMuteInbox` states that, for member tables without duplicate keys.
- Signals.Broadcast: its own contract does not say that every other member is reached; `Signals.BroadcastInbox` states that, for member tables without duplicate keys.
- The order in which a broadcast reaches the room's members is fixed to member order here; the transport does not promise any order.
