# Chat-room relay: rooms, command handler and delivery loop

This project models the server core of a room-based chat relay written in Go. Clients connect over
WebSockets. They create or join named rooms, send short messages, leave, and reconnect to a room
with the token they were given. The model covers three parts:

- **Entity store** (`user.dfy`, `room.dfy`, `state.dfy`). A `User` is a value: name, token,
  connection handle. A `Room` is an object with a fixed name and an ordered member list, with the
  loops of `AddUser`, `GetUserByToken` and `RemoveUser`. The `Server` object holds the
  package-level registries: `rooms` (Rooms), `tokenIndex` (TokenToRooms) and `clients` (Clients).
  `Server.Abs()` is their value as a `Registry`.
- **Command handler** (`protocol.dfy`, `handlers.dfy`). `Protocol.Handle` says, as a function of
  the registries, what one decoded client event does and which messages it queues.
  `Handlers.HandleEvents` and its per-event methods update a `Server` in place. Each is proved to
  match `Handle` exactly and to keep the registry invariant `RegistryValid`: names are unique
  within a room, and every present member is indexed under its token with its own name and room.
- **Delivery and read loop** (`websocket.dfy`). `DeliverOne` is one iteration of the Go
  `HandleMessages` loop. It resolves a message to the connections it writes and deregisters those
  whose write fails. `HandleMessages` drains a queue of messages. `HandleConnection` is the read
  loop of one connection: it registers the connection, hands each decoded event to
  `HandleEvents`, and deregisters the connection on a read error.

`properties.dfy` proves what each event does, how tokens behave across events, and that the
invariant survives any sequence of events. `scenarios.dfy` walks through a concrete conversation:
create, join, send, a duplicate join, leave, then reconnect.

Boundaries of the model:
- Token generation is a parameter. Each handler call receives the token a new member would get,
  and must be given one the index does not hold yet.
- A socket write is a parameter `ok: Conn -> bool`: a write to `c` succeeds exactly when `ok(c)`.
  A queue of messages takes one such predicate per message.
- Everything runs in one thread, one step at a time.

The `User` struct in backend/entities/user.go declares only `Name` and `Conn`. Yet room.go and
handlers.go read `user.Token`, and the handlers index members under it. The model's `User`
therefore carries a token, fixed when the member is created.

Several cases are silent in the code, and the model keeps them silent:
- An empty required field, a join, leave or send naming a missing room, and an unknown tag are
  only logged. No error event goes back to the client.
- A reconnect with an unknown token is only printed. No InvalidToken error is sent; that error
  goes out only when the index knows the token but the room no longer holds it.
- When the token's member has left, reconnect sends InvalidToken and then dereferences a nil user.
  This is the outcome `NilDereference` (see Findings).

## Model

| member | source | states |
|---|---|---|
| Users.NewUser | backend/entities/user.go:10-12 | The user has exactly the given name and connection (plus the issued token); no name is refused, the empty one included |
| Rooms.Room.constructor | backend/entities/room.go:10-12 | NewRoom: the room has the given name and no members; the name is a constant, so no method changes it |
| Rooms.Room.AddUser | backend/entities/room.go:14-22 | Fails exactly when some member already has the name, then leaves the members unchanged; otherwise the members become the old ones followed by the new user |
| Rooms.Room.GetUserByToken | backend/entities/room.go:24-31 | Returns the position of the first member holding the token (no earlier member holds it); None exactly when no member holds it |
| Rooms.FirstWithToken | backend/entities/room.go:24-31 | Finds the first holder of a token, or None exactly when nobody holds it; the value form of GetUserByToken |
| Rooms.WithoutToken | backend/entities/room.go:33-40 | Definition of the member list after a removal; properties in RemovalDropsFirstHolder, RemovalKeepsOnlyMembers, RemovalKeepsNamesUnique |
| Rooms.Room.RemoveUser | backend/entities/room.go:33-40 | The members become WithoutToken of the old members: the first holder is spliced out, and nothing happens when there is none |
| Rooms.RemovalDropsFirstHolder | backend/entities/room.go:33-40 | Removal drops exactly the first holder: the length falls by one, the multiset loses that user, everyone else keeps their order; with no holder the list is unchanged |
| Rooms.RemovalKeepsOnlyMembers | backend/entities/room.go:33-40 | Every member left after a removal was a member before |
| Rooms.RemovalKeepsNamesUnique | backend/entities/room.go:33-40 | Removal keeps names unique within the room |
| Rooms.AppendFreeNameKeepsNamesUnique | backend/entities/room.go:14-22 | Appending a user whose name is free keeps names unique, which is the invariant AddUser maintains |
| Rooms.EmptyRoomAdmitsAnyone | backend/api/handlers.go:55-60 | AddUser on a new room cannot fail, so create_room loses nothing by ignoring its error |
| Rooms.RemovalOfUniqueTokenLeavesNoHolder | backend/entities/room.go:33-40 | When tokens are distinct, no member holds the token after its holder is removed |
| Rooms.Room.SetConn | backend/api/handlers.go:196 | `user.Conn = ws`: only the connection of that one member changes |
| State.NewUserRoom | backend/api/state.go:13-15 | The first argument becomes the username, the second the room name |
| State.Server.constructor | backend/api/state.go:17-22 | Clients, Rooms and TokenToRooms all start empty, and this empty state satisfies the invariant |
| State.TokensUniqueInRoom | backend/api/state.go:21 | In a valid registry no two members of a room share a token |
| State.UnindexedTokenIsUnheld | backend/api/state.go:21 | A token the index does not hold belongs to no present member, so a fresh token is fresh for members too |
| Messages.NewClientMessage | backend/api/message.go:24-33 | Fails exactly on a nil connection; otherwise a ClientSpecific message for that connection, with no room name and the content unchanged |
| Messages.NewRoomMessage | backend/api/message.go:35-44 | Fails exactly on an empty room name; otherwise a RoomBroadcast for that room, with no connection and the content unchanged |
| Messages.NewBroadcastMessage | backend/api/message.go:46-51 | Never fails; a GlobalBroadcast with neither a connection nor a room name, and the content unchanged |
| Protocol.Create | backend/api/handlers.go:27-81 | Definition of create_room over the registries; properties in Properties.CreateTakenRoom, Properties.CreateNewRoom, HandleKeepsValid |
| Protocol.Join | backend/api/handlers.go:83-130 | Definition of join_room; properties in Properties.JoinTakenName, Properties.JoinFreeName, HandleKeepsValid |
| Protocol.Leave | backend/api/handlers.go:131-161 | Definition of leave_room; properties in Properties.LeaveByToken, Properties.LeaveIgnoresUsername, LeaveKeepsValid |
| Protocol.Reconnect | backend/api/handlers.go:162-206 | Definition of reconnect_room as written, the fall-through to the nil dereference included; properties in Properties.ReconnectUnknown, Properties.ReconnectPresentMember, Properties.ReconnectStaleTokenCrashes |
| Protocol.ReconnectFixed | backend/api/handlers.go:183-194 | Definition of reconnect_room with the missing return added; properties in Properties.ReconnectFixedNeverCrashes, Properties.LeaveThenReconnect |
| Protocol.Send | backend/api/handlers.go:208-235 | Definition of send_message; properties in Properties.SendToRoom, Properties.RoomFanOut |
| Protocol.Handle | backend/api/handlers.go:18-240 | Definition of the dispatch on the event tag, plus the logged-only decode failure and unknown tag; properties in HandleKeepsValid, IndexOnlyGrows, RoomsOnlyGrow, Properties.LoggedOnlyEventsChangeNothing |
| Protocol.AdmitKeepsValid | backend/api/handlers.go:102-119 | Adding a member with a free name under an unused token, and indexing it, keeps the registries valid |
| Protocol.LeaveKeepsValid | backend/api/handlers.go:150 | leave_room keeps the registries valid, even though it leaves the index entry behind |
| Protocol.ReconnectKeepsValid | backend/api/handlers.go:196 | Rebinding a connection keeps the registries valid |
| Protocol.HandleKeepsValid | backend/api/handlers.go:18-240 | Every event keeps names unique in every room and keeps every present member correctly indexed |
| Protocol.IndexOnlyGrows | backend/api/handlers.go:55-161 | No event deletes or rewrites a TokenToRooms entry (leave_room included); the only key an event can add is the fresh token |
| Protocol.RoomsOnlyGrow | backend/api/handlers.go:55-57 | No event removes a room; only create_room adds one, under its own name |
| Handlers.GetRoom | backend/api/handlers.go:10-16 | Returns the Room stored under the name, or RoomNotFound exactly when the name is not registered |
| Handlers.HandleCreateRoom | backend/api/handlers.go:27-81 | Updates the server exactly as Protocol.Create and returns its messages; existing Room objects are kept and the new one is fresh |
| Handlers.HandleJoinRoom | backend/api/handlers.go:83-130 | Updates the server exactly as Protocol.Join and returns its messages; the room map is unchanged |
| Handlers.HandleLeaveRoom | backend/api/handlers.go:131-161 | Updates the server exactly as Protocol.Leave and returns its messages |
| Handlers.HandleReconnectRoom | backend/api/handlers.go:162-206 | Updates the server exactly as Protocol.Reconnect, including the NilDereference outcome, and returns its messages |
| Handlers.HandleSendMessage | backend/api/handlers.go:208-235 | Changes nothing and returns the messages of Protocol.Send |
| Handlers.HandleEvents | backend/api/handlers.go:18-240 | Keeps the server valid, leaves Clients alone, and matches Protocol.Handle in new state, messages and outcome |
| WebSocket.MemberConns | backend/api/websocket.go:69-70 | One target per member, each member's connection, in member order |
| WebSocket.WriteEach | backend/api/websocket.go:69-75 | Writes each connection once, in order; exactly the failed ones are removed from Clients and the loop goes on |
| WebSocket.WriteClients | backend/api/websocket.go:46-53 | Writes every registered connection exactly once (as a multiset, in open order); exactly the failed ones are removed from Clients |
| WebSocket.DeliverOne | backend/api/websocket.go:45-76 | ClientSpecific: one write, to msg.Client; RoomBroadcast to a registered room: the members' connections in order; GlobalBroadcast: each client once; an unregistered room ends the loop with no write; failed writes only shrink Clients; rooms and members never change |
| WebSocket.FirstStranding | backend/api/websocket.go:63-67 | The position of the first broadcast to an unregistered room: all earlier messages are deliverable |
| WebSocket.DeliverNext | backend/api/websocket.go:42-77 | One loop iteration inside a run: DeliverOne on the next queued message with that message's write outcomes, extending a run whose writes match the queue |
| WebSocket.HandleMessages | backend/api/websocket.go:41-80 | As written: messages are taken in order, up to and including the first broadcast to an unregistered room, and none after it; each taken message (GlobalBroadcast excepted) gets its DeliverOne writes under its own write outcomes; Clients loses exactly the connections whose write failed |
| WebSocket.HandleMessagesDropMissing | backend/api/websocket.go:63-67 | Corrected loop: every message is taken; a broadcast to an unregistered room makes no write and the loop goes on; Clients loses exactly the connections whose write failed |
| WebSocket.Serve | backend/api/websocket.go:24-38 | Definition of the read loop over the registries, frame by frame; properties in HandleConnection |
| WebSocket.ServeFrame | backend/api/websocket.go:25-37 | One read-loop iteration: a read error deregisters the connection and ends the loop, an undecodable frame ends it with the connection still registered, a decoded event is handled exactly as HandleEvents; the loop then resumes at the next frame or Serve is complete |
| WebSocket.HandleConnection | backend/api/websocket.go:14-39 | Registers the connection and handles the frames as Serve says; a read error deregisters it; an undecodable frame or a panic ends the loop and leaves it registered |
| Properties.LoggedOnlyEventsChangeNothing | backend/api/handlers.go:20-24 | Undecodable data, an empty required field, a missing room for join, leave or send, and an unknown tag: registries unchanged, nothing queued |
| Properties.CreateTakenRoom | backend/api/handlers.go:40-52 | create_room for a registered name: state unchanged, exactly one RoomAlreadyExists error to the source |
| Properties.CreateNewRoom | backend/api/handlers.go:55-81 | create_room for a new name: exactly that key is added, with members exactly [the new user]; the fresh token is indexed; room_created then room_joined go to the source with that token |
| Properties.JoinTakenName | backend/api/handlers.go:102-117 | join_room with a name already in the room: state unchanged, exactly one UsernameTaken error to the source |
| Properties.JoinFreeName | backend/api/handlers.go:104-130 | A successful join_room appends the user to that room only, indexes the token, and sends exactly one room_joined to the source |
| Properties.LeaveByToken | backend/api/handlers.go:139-161 | leave_room removes the first holder of the token from that room, keeps the index, and always sends room_left to the source, even when nothing matched |
| Properties.LeaveIgnoresUsername | backend/api/handlers.go:150 | The member is chosen by token, not username: any two non-empty usernames give the same reaction |
| Properties.ReconnectUnknown | backend/api/handlers.go:170-180 | An unknown token, or an indexed room that is gone: no change, no message |
| Properties.ReconnectPresentMember | backend/api/handlers.go:182-206 | A present member's token rebinds only that member's connection and sends exactly one room_reconnected carrying its token, room and name |
| Properties.ReconnectStaleTokenCrashes | backend/api/handlers.go:183-196 | As written: a stale token sends InvalidToken, then the handler dereferences nil; the registries are unchanged |
| Properties.ReconnectFixedNeverCrashes | backend/api/handlers.go:183-196 | With the return added the handler never crashes; a stale token gets exactly the InvalidToken error; everything else is as written |
| Properties.SendToRoom | backend/api/handlers.go:216-235 | send_message: state unchanged, exactly one RoomBroadcast addressed to the room carrying the username and body |
| Properties.HandlerMessagesAreDeliverable | backend/api/handlers.go:45-235 | Every queued message is well formed; none is a GlobalBroadcast; client messages go to the source; room broadcasts name a registered room, so the delivery loop is never stopped by one |
| Properties.RoomFanOut | backend/api/handlers.go:227-235 | End to end, the one message send_message queues for a registered room of N members passes the delivery loop's room lookup (websocket.go:63-67), and its targets are N, one per member connection in member order, the sender included |
| Properties.IssuedTokenReconnects | backend/api/handlers.go:170-206 | A token issued by a successful create_room or join_room is accepted by the next reconnect_room, which returns room_reconnected for that member |
| Properties.LeaveThenReconnect | backend/api/handlers.go:150-196 | After a leave, the token is still indexed but no member holds it: InvalidToken then the nil dereference as written, InvalidToken alone with the fix |
| Properties.RoomNameClaimedOnce | backend/api/handlers.go:40-57 | After a create_room succeeds, any later create_room for that name is refused, whatever events come between: state unchanged, outcome Returned, and exactly one RoomAlreadyExists error to its source |
| Properties.ReplayKeepsRooms | backend/api/handlers.go:57 | Rooms registered before a sequence of events are still registered after it |
| Properties.ReplayKeepsValid | backend/api/handlers.go:18-240 | Name uniqueness and index consistency hold after any sequence of events with fresh, distinct tokens |
| Scenarios.CreateThenJoin | backend/api/handlers.go:55-130 | alice's create_room gets room_created then room_joined; bob's join_room gets room_joined only; r1 then holds alice and bob in join order |
| Scenarios.BobSaysHi | backend/api/handlers.go:227-235 | bob's "hi" is one broadcast to r1, delivered to alice's and then bob's connection |
| Scenarios.AliceJoinsAgain | backend/api/handlers.go:104-116 | A second "alice" gets UsernameTaken and the membership is unchanged |
| Scenarios.AliceLeavesThenReconnects | backend/api/handlers.go:150-196 | After alice leaves, r1 holds only bob; reconnecting with her token gets InvalidToken and then the nil dereference |

## Left out

- JSON. `NewClientEvent`, `UnmarshalClientEventData`, `NewServerEvent` and the event data types are not part of this model. Client events are the datatype `ClientEvent`. A tag that does not match its data, and data that fails to decode, are both the case `Undecodable`. Server events are `ServerEvent` terms.
- Token generation is not part of this model. Each handler call receives a token the index does not hold, and the uniqueness is assumed.
- Concurrency is not modelled: the per-connection goroutines, the unbuffered `Messages` channel, and the unsynchronised maps. Handling and delivery run one after the other in one thread, so the races between two simultaneous create_room or join_room calls are not captured.
- Socket I/O is not modelled (`WriteJSON`, `Close`, `ReadMessage`, the HTTP upgrade). A write's outcome comes from a predicate: `ok` for one message, and `oks[i]` for the i-th message of a queue, so a connection can succeed for one message and fail for a later one. A closed connection is only removed from `clients`; nothing records that it is closed. The same connection written twice in one delivery step gets the same outcome both times.
- Logging (`HandleEventError`, `log.Println`) is not modelled: a logged-only path is a step that changes nothing and queues nothing.
- Handlers.HandleEvents: the source connection is a non-nil handle. The one caller passes an upgraded connection, so the branches where `NewClientMessage` fails on a nil connection are not modelled.
- Handlers.HandleReconnectRoom: on `NilDereference` the model returns with the error queued and nothing else changed. What the Go panic does next (net/http recovering it, the deferred `Close`) is not modelled. `HandleConnection` only ends the read loop there.
- WebSocket.DeliverOne: it requires a well-formed message. A ClientSpecific message with a nil client would panic in Go, but the constructors never build one.
- WebSocket.HandleMessages: for GlobalBroadcast messages inside a queue it does not state the writes, because Clients changes between messages. `DeliverOne` states them for a single message. The Clients update is still exact for them.
- WebSocket.HandleMessagesDropMissing: the same as HandleMessages, for GlobalBroadcast messages inside a queue.
- WebSocket.WriteClients: Go's map iteration order is random, so the order of the writes is left open. The contract states a multiset.
- backend/api/routes.go, backend/api/utils.go, the older `package main` prototype, the earlier handler revisions (events.go, handleEvents.go), backend/entities/message.go and the React front end are not part of this model.

## Findings

| source | as written | input that shows it | evidently intended | confidence | as-written member | corrected member |
|---|---|---|---|---|---|---|
| backend/api/handlers.go:183-196 | After pushing the InvalidToken error there is no `return`, so `user.Conn = ws` dereferences the nil user | leave_room with a member's token, then reconnect_room with the same token (Properties.LeaveThenReconnect) | Return right after the error is pushed | high; not executed | Protocol.Reconnect, Properties.ReconnectStaleTokenCrashes | Protocol.ReconnectFixed, Properties.ReconnectFixedNeverCrashes |
| backend/api/websocket.go:63-67 | A room broadcast for a room that is not registered `return`s from HandleMessages, so no later message is ever delivered | a RoomBroadcast naming an unregistered room, followed by any message. The current handler never queues one (Properties.HandlerMessagesAreDeliverable) | Log, drop that message and go on with the next one | medium; not executed | WebSocket.HandleMessages | WebSocket.HandleMessagesDropMissing |

The handler model keeps the as-written reconnect behaviour, because that is what the program
does. The corrected definitions sit next to the as-written ones, with their properties proved.
