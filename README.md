# Cypher Chat: session registry, message router and call relay

This project models the core of the Cypher Chat backend in Dafny, and one pure helper of its video-call client.

The backend is a single Node.js process. It keeps chat sessions in memory in two objects:

- `sessions`: session id to members and message log;
- `userSessions`: session id to the names that joined over REST.

Clients reach it through a handful of REST endpoints and many socket.io events. The model covers four parts:

- **socket.io addressing** (`socketio.dfy`). Room membership is an `Adapter` value. Every live connection is also in a room named after its own id. Handlers emit symbolic events addressed in three ways:
  - `socket.to(room)`: the room minus every member of the sender's own room (socket.io's exception set), so minus the sender;
  - `io.to(room)`: the whole room;
  - `socket.emit`: the sender alone.

  `Received` gives, in order, what one connection gets from a handler's emissions.
- **Session registry and message router** (`protocol.dfy`, `registry.dfy`, `server.dfy`):
  - A class `Server` holds `sessions`, `userSessions` and the adapter.
  - Each socket handler and REST endpoint is a method. Each method updates the state in place and returns the events it emits, as the handlers do.
  - Every handler runs to completion before the next starts, so each method is one atomic step.
  - The `disconnect` handler's `forEach` over the sessions is a `while` loop, `RemoveEverywhere`. It mirrors the `findIndex`/`splice` step.
  - The pure parts live in `Registry`: the lookups, the list edits and the emitted events. The lemmas about who receives what live there too.
- **Call-signalling and private-chat relay** (`signaling.dfy`). This part is stateless: it maps an inbound event and the sender's connection id to emissions. The payload is forwarded unchanged and stamped with the sender's id. The private room name is `[a, b].sort().join('-')`.
- **Video-call client helpers** (`video_call.dfy`):
  - `formatCallDuration` as a string function, with a reader `ParseCallDuration` proved to invert it;
  - the guard in the four incoming-call handlers that ignores events carrying the client's own socket id.

Rules applied throughout the model:

- An absent or falsy string field (`targetUserId`, `sessionId`) is the empty string.
- An absent `messageData` is `None`.
- Clock values, uuid-derived ids and the base64 encoder are parameters.

## Model

| member | source | states |
|---|---|---|
| SocketIo.Connect | Backend/index.js:126 | a new connection becomes live and a member of its own room; every other room keeps its members |
| SocketIo.Join | Backend/index.js:131 | `socket.join` adds the connection to that room only; joining again changes nothing; explicit rooms keep holding only live connections |
| SocketIo.LeaveAll | Backend/index.js:364-365 | when a connection closes it leaves every room before the `disconnect` handler runs |
| SocketIo.Recipients | Backend/index.js:160-166 | `socket.to` never reaches the sender nor anyone in the sender's own room, and reaches the rest of the room when the sender owns its room; `io.to` reaches a sender that is in the room; `socket.emit` reaches a live sender and nobody else; nobody outside the live connections is reached |
| SocketIo.ReceivedAppend | Backend/index.js:157-166 | emitting two batches one after the other delivers the two batches in that order to each connection |
| SocketIo.NoEchoToSender | Backend/index.js:237-332 | handlers that only use `socket.to` never deliver anything to their sender |
| SocketIo.AddressableMembers | Backend/index.js:196 | a connection whose own room nobody else joined is the only member of `socket.to(id)` |
| Registry.IndexOfId | Backend/index.js:370 | `findIndex` by id: the first entry with that id, or -1 exactly when none has it |
| Registry.IndexOfName | Backend/index.js:193 | `find` by display name: the first member with that name, or -1 exactly when no member has it |
| Registry.DropUser | Backend/index.js:370-373 | the splice removes one entry when the id is listed and leaves the list unchanged otherwise |
| Registry.DropUserRemovesAll | Backend/index.js:368-373 | on a list with unique ids, the spliced list no longer lists the connection and still has unique ids |
| Registry.DropUserIsWithout | Backend/index.js:368-373 | on a list with unique ids, the splice equals filtering out every entry of the connection |
| Registry.WithoutAbsent | Backend/index.js:371 | filtering out a connection that is not listed leaves the list unchanged |
| Registry.MarkTyping | Backend/index.js:217-219 | the first member with that name gets the typing flag and every other entry is unchanged; an unknown name changes nothing |
| Registry.MarkTypingKeepsIds | Backend/index.js:228-230 | setting the typing flag lists the same connections and keeps ids unique |
| Registry.JoinEvents | Backend/index.js:157-166 | a first join emits three events, all addressed to the session's room or to the joiner |
| Registry.JoinDelivery | Backend/index.js:157-166 | on a first join, the joiner receives the new count, then the member list that includes the joiner; other members receive `userJoined` (unless they sit in the joiner's own room), then the count; nobody else receives anything |
| Registry.LeaveEvents | Backend/index.js:370-377 | a session emits two departure notices, to its room, exactly when it lists the connection, and none otherwise |
| Registry.LeaveDelivery | Backend/index.js:371-377 | one session's departure notices: every remaining member receives `userLeft` (unless it sits in the leaver's own room), then the new count; the leaver receives nothing |
| Registry.TypingEvents | Backend/index.js:217-221 | one typing notice to the session's room exactly when some member has that name, none otherwise |
| Registry.TypingDelivery | Backend/index.js:214-234 | the typing notice reaches every room member except the typist and its own room, and only when some member has that name |
| Registry.DefaultMessage | Backend/index.js:179-187 | the server-built message is not private, marked encrypted and sent, carries the username as sender, the clock values as id and time, and the encoded text |
| Registry.FinalMessage | Backend/index.js:179-187 | the client's `messageData` is used as sent; otherwise the server builds a non-private message with the encoded text |
| Registry.RouteMessage | Backend/index.js:190-210 | a message is routed as one or two events, each carrying the message or its not-found error; a private message always goes back to the sender and never to the whole session |
| Registry.RouteBroadcast | Backend/index.js:207-209 | a non-private message reaches every room member exactly once, the sender included, and nobody else |
| Registry.RoutePrivateFound | Backend/index.js:191-199 | a private message whose target name some member has goes to the first such member (unless it sits in the sender's own room) and back to the sender |
| Registry.RoutePrivateExactlyTwo | Backend/index.js:193-198 | when the sender and the target connection each own their room, the sender and the target receive the private message once each, and nobody else receives anything |
| Registry.RoutePrivateMissing | Backend/index.js:200-205 | a private message naming no member reaches only the sender, as `privateMessageError` carrying the original message |
| Registry.LeaveLog | Backend/index.js:368-382 | the disconnect notices, session by session in visiting order, at most two per session |
| Registry.LeaveLogForRoom | Backend/index.js:368-382 | the disconnect notices addressed to one session's room are that session's own notices, since each session is visited once |
| Registry.DisconnectLeftNotice | Backend/index.js:368-377 | a disconnect sends exactly one `userLeft`, with the removed entry, to each session that listed the connection, and none to any other session |
| Registry.DisconnectCountNotice | Backend/index.js:368-377 | a disconnect sends exactly one `userCountUpdate`, with the session's new length, to each session that listed the connection, and none to any other session |
| Registry.LeaveLogSkipsLeaver | Backend/index.js:376-377 | once the leaver has left every room, none of the disconnect notices reach it |
| Backend.Departed | Backend/index.js:368-373 | the sessions during the disconnect walk: visited sessions have lost the entry; the set of session ids is unchanged |
| Backend.RemoveEverywhere | Backend/index.js:368-382 | the `forEach` over all sessions removes the connection from each one and emits exactly the per-session notices, visiting every session once |
| Backend.Server.Accept | Backend/index.js:126 | a new connection becomes live in its own room; sessions are unchanged |
| Backend.Server.CreateSession | Backend/index.js:70-81 | the session id maps to a fresh session with no members and no messages; an existing session of that id is replaced |
| Backend.Server.JoinById | Backend/index.js:95-114 | an unknown session is refused with nothing changed; otherwise the name is appended to that session's REST join list |
| Backend.Server.ListUsers | Backend/index.js:117-123 | the member list of a known session, with unique ids; none for an unknown session |
| Backend.Server.JoinSession | Backend/index.js:129-170 | the connection always joins the room; an unknown session is created empty; a new connection is appended last, online and not typing, and announced; a listed connection changes nothing and emits nothing |
| Backend.Server.SendMessage | Backend/index.js:172-212 | an unknown session changes nothing and emits nothing; otherwise the message log grows by exactly that message at the end and the message is routed |
| Backend.Server.SetTyping | Backend/index.js:214-234 | `typingStart`/`typingStop` set the flag on the first member with that name and notify the room; an unknown session or name changes nothing and emits nothing |
| Backend.Server.JoinPrivateChat | Backend/index.js:335-341 | the connection joins the pair's private room and nothing else changes |
| Backend.Server.Disconnect | Backend/index.js:364-383 | every session loses the connection's entry and nothing else; no session lists it afterwards; the notices are those of each session, in visiting order |
| Signaling.LexLessAsymmetric | Backend/index.js:338 | the default string order never puts each of two strings before the other |
| Signaling.LexLessTotal | Backend/index.js:338 | any two different strings are ordered one way or the other |
| Signaling.PrivateRoom | Backend/index.js:338 | the room name is the two ids in one order or the other, joined by `-` |
| Signaling.PrivateRoomSymmetric | Backend/index.js:338 | both ends of a private chat compute the same room name |
| Signaling.PrivateRoomOrdered | Backend/index.js:345 | the room name lists the id that sorts first, then `-`, then the other |
| Signaling.PrivateRoomSharedName | Backend/index.js:354 | ids containing `-` can make two different pairs share one private room |
| Signaling.Relay | Backend/index.js:237-362 | a call handler emits at most one event and only through `socket.to`; only a private message also goes back to the sender; no relay handler emits to a whole room |
| Signaling.RelayForwards | Backend/index.js:237-332 | each call handler emits at most one event: to the target, or for requests and ends to the session when no target is given; the event is the matching one (offer, answer, candidate, end, request), with the payload, mode, caller name and session id unchanged and stamped with the sender's id |
| Signaling.RelayRecipients | Backend/index.js:263-287 | a call event reaches every member of its addressee's room except the sender and its own room, once, and nobody else |
| Signaling.DirectSignalReachesOnlyTarget | Backend/index.js:237-261 | an offer, answer or ICE candidate sent to a connection that owns its room, and is not in the sender's own room, reaches exactly that connection |
| Signaling.PrivateMessageRecipients | Backend/index.js:343-350 | a private message reaches the private room without the sender's own room, and the sender once |
| Signaling.PrivateChatReachesPeer | Backend/index.js:335-362 | a peer that joined the private chat from the other side hears the private messages and the private typing notices |
| VideoCall.FormatCallDuration | Frontend/components/video-call.tsx:173-177 | the label has at least five characters, and exactly five below 100 minutes |
| VideoCall.Label | Frontend/components/video-call.tsx:176 | the label of a minutes and a seconds value has at least five characters, and exactly five when both are below 100 |
| VideoCall.NatToString | Frontend/components/video-call.tsx:176 | `toString` of a whole number has at least one character, and one exactly below 10 |
| VideoCall.NatToStringValue | Frontend/components/video-call.tsx:176 | `toString` writes only digits, and they read back as the number |
| VideoCall.PadStart | Frontend/components/video-call.tsx:176 | `padStart` pads up to the width and never truncates |
| VideoCall.PadStartShape | Frontend/components/video-call.tsx:176 | `padStart` adds only fill characters, all on the left of the original text |
| VideoCall.PaddedValue | Frontend/components/video-call.tsx:176 | padding digits with zeros keeps their value |
| VideoCall.TwoDigitField | Frontend/components/video-call.tsx:175-176 | a value below 100 pads to exactly two digits that read back as the value |
| VideoCall.MinutesField | Frontend/components/video-call.tsx:174-176 | the minutes field has at least two digits and reads back as the minutes |
| VideoCall.DivMod60 | Frontend/components/video-call.tsx:174-175 | the minutes times 60 plus the seconds give the total; the seconds are below 60 |
| VideoCall.LabelFieldValues | Frontend/components/video-call.tsx:176 | the label is the minutes field, a colon and exactly two seconds digits, each reading back as its value |
| VideoCall.FormatFields | Frontend/components/video-call.tsx:173-177 | `formatCallDuration`'s label reads as the whole minutes and the remaining seconds, with the seconds always in two digits |
| VideoCall.FormatShort | Frontend/components/video-call.tsx:173-177 | below 6000 seconds the label is exactly five characters with the colon at index 2 |
| VideoCall.LabelRoundTrip | Frontend/components/video-call.tsx:176 | reading the label of minutes and seconds back gives minutes times 60 plus seconds |
| VideoCall.FormatRoundTrip | Frontend/components/video-call.tsx:173-177 | reading the label back gives the seconds it was made from |
| VideoCall.FormatInjective | Frontend/components/video-call.tsx:173-177 | different durations get different labels |
| VideoCall.OnIncomingCall | Frontend/components/video-call.tsx:873-895 | a request or offer carrying the client's own id leaves the incoming-call state untouched; any other caller replaces it, audio exactly for audio events, keeping the session id of requests and the offer of offers |
| VideoCall.RelayedCallRings | Frontend/components/video-call.tsx:873-895 | a request or offer relayed by the server never comes back to its sender, so the receiving client always shows it, with the sender as caller and the sender's mode |

## Left out

- Snapshot persistence is file I/O and timers: `loadSessions`, `saveSessions`, the 30-second save interval and the SIGINT/SIGTERM hooks (Backend/index.js:34-65, 393-403).
- Express, CORS and socket.io setup, `server.listen`, and the two health endpoints (Backend/index.js:1-26, 84-92, 387-390) are plumbing.
- Id generation, clocks and the message encoder are foreign calls, so they become parameters:
  - `uuidv4().substring(0, 8).toUpperCase()` becomes `CreateSession`'s `sid`;
  - `new Date().toISOString()` and `Date.now()` become `createdAt`, `stampId` and `stampTime`;
  - `Buffer.from(message).toString('base64')` becomes the `encode` function.
- Backend.Server.Disconnect: the order in which `Object.keys(sessions)` visits the sessions is not modelled. The visiting order is a ghost out-parameter, and the result is stated for any order that visits each session once.
- Signaling.LexLess: the model compares Unicode scalar values. JavaScript compares UTF-16 code units, so the two orders differ only for characters outside the Basic Multilingual Plane.
- Sessions whose `users` or `messages` field is missing are not modelled. They arise only when a snapshot is loaded from disk; in the model every session has both fields, so the guards for a missing field (Backend/index.js:144-146, 175-177, 216, 227, 369) never take effect.
- `messageData` from the client is treated as a well-formed message: truthiness tests on arbitrary JSON values are not modelled.
- Private-chat payloads and WebRTC payloads (offers, answers, candidates) are opaque strings and are relayed unchanged.
- Debug logging (`console.log`) is left out.
- The rest of Frontend/components/video-call.tsx is browser APIs, timers and React state, and is left out:
  - `RTCPeerConnection`;
  - media capture;
  - device switching;
  - stream attachment;
  - the client-side call time-outs.
- `sessions` and `userSessions` are plain objects (Backend/index.js:30-31), so an id naming an inherited property (`constructor`, `toString`, `__proto__`) finds a value that is not a session. The model's maps know only the sessions created, so it does not capture what follows for such ids:
  - `joinSession` creates no session and keeps the member list on the inherited object;
  - `Object.keys` never visits that list, so a connection that joined it stays listed after it disconnects, and no `userLeft` or `userCountUpdate` is sent;
  - `join-by-id` gets past the 404 test and then fails at `userSessions[id].push` (Backend/index.js:109).
- VideoCall.FormatCallDuration: takes a whole number of seconds. The component computes it with `Math.floor((Date.now() - start) / 1000)` (Frontend/components/video-call.tsx:104), which is negative when the clock steps back and then gives labels such as `-1:-5`; negative and fractional durations are not modelled.
- Registry.FinalMessage: `message` is always a string. With neither `message` nor `messageData`, `Buffer.from(undefined)` throws (Backend/index.js:183) before anything is stored; that failure is not modelled.
- Behaviour of the code worth stating plainly:
  - Re-joining with a listed connection emits nothing; it does not re-send the member snapshot.
  - Creating a session replaces an existing session of the same id; there is no collision check.
  - The `usersList` sent to a joiner is sent after the joiner is appended, so it includes the joiner.
  - The server keeps no call state and has no call time-out.
