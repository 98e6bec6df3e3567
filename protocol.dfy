/** The command handler of backend/api/handlers.go as a function of the registries: what one
    decoded client event does to them and which messages it queues, in order. */
module Protocol {
  import opened Wrappers
  import opened Users
  import opened Rooms
  import opened State
  import opened Messages

  /** A client event after decoding, one case per tag. Undecodable stands for data that failed
      to decode or did not have the shape its tag calls for; UnknownType for any other tag. */
  datatype ClientEvent =
    | CreateRoom(roomName: string, username: string)
    | JoinRoom(roomName: string, username: string)
    | LeaveRoom(roomName: string, username: string, token: Token)
    | ReconnectRoom(token: Token)
    | SendMessage(roomName: string, username: string, body: string)
    | Undecodable
    | UnknownType(eventType: string)

  /** How a handler invocation ends: it returns, or it dereferences a nil user (the reconnect
      path, see Reconnect). */
  datatype Outcome = Returned | NilDereference

  /** The registries afterwards, the messages queued (in queue order) and how the call ended. */
  datatype Reaction = Reaction(after: Registry, sent: seq<Message>, outcome: Outcome)

  const RoomTakenText := "Room name is taken"
  const NameTakenText := "User with that name already exists in that room"
  const BadTokenText := "Token is invalid"

  /** A message for the connection the event came from. The handler's connection is never nil,
      so NewClientMessage cannot fail here. */
  function ToSource(ws: Conn, content: ServerEvent): (m: Message)
    ensures m.WellFormed() && m.kind == ClientSpecific && m.client == Some(ws)
    ensures m.roomName == "" && m.content == content
  {
    NewClientMessage(Some(ws), content).value
  }

  /** Nothing changes and nothing is queued; the Go code only logs. */
  function Ignore(reg: Registry): Reaction
  {
    Reaction(reg, [], Returned)
  }

  /** create_room. The new room's AddUser cannot fail (EmptyRoomAdmitsAnyone), and the Go code
      ignores its error. */
  function Create(reg: Registry, roomName: string, username: string, ws: Conn, token: Token): Reaction
  {
    if roomName == "" || username == "" then Ignore(reg)
    else if roomName in reg.rooms then
      Reaction(reg, [ToSource(ws, Error(RoomAlreadyExists, RoomTakenText))], Returned)
    else
      var u := NewUser(username, ws, token);
      Reaction(Registry(reg.rooms[roomName := [u]], reg.tokenIndex[u.token := NewUserRoom(u.name, roomName)]),
               [ToSource(ws, RoomCreated(u.token, roomName)), ToSource(ws, RoomJoined(u.token, roomName))],
               Returned)
  }

  /** join_room. A missing room is only logged. */
  function Join(reg: Registry, roomName: string, username: string, ws: Conn, token: Token): Reaction
  {
    if roomName == "" || username == "" then Ignore(reg)
    else if roomName !in reg.rooms then Ignore(reg)
    else
      var users, u := reg.rooms[roomName], NewUser(username, ws, token);
      if NameTaken(users, u.name) then
        Reaction(reg, [ToSource(ws, Error(UsernameTaken, NameTakenText))], Returned)
      else
        Reaction(Registry(reg.rooms[roomName := users + [u]], reg.tokenIndex[u.token := NewUserRoom(u.name, roomName)]),
                 [ToSource(ws, RoomJoined(u.token, roomName))],
                 Returned)
  }

  /** leave_room. The member is chosen by token alone; the username must be non-empty but is not
      otherwise used. The reconnect index is not touched. */
  function Leave(reg: Registry, roomName: string, username: string, token: Token, ws: Conn): Reaction
  {
    if roomName == "" || username == "" || token == "" then Ignore(reg)
    else if roomName !in reg.rooms then Ignore(reg)
    else
      Reaction(reg.(rooms := reg.rooms[roomName := WithoutToken(reg.rooms[roomName], token)]),
               [ToSource(ws, RoomLeft(token, roomName))],
               Returned)
  }

  /** reconnect_room, as written: when the indexed room no longer holds the token, the
      InvalidToken error is queued and execution falls through to `user.Conn = ws` on a nil
      user. The token is not checked for emptiness. */
  function Reconnect(reg: Registry, token: Token, ws: Conn): Reaction
  {
    if token !in reg.tokenIndex then Ignore(reg)
    else
      var roomName := reg.tokenIndex[token].roomName;
      if roomName !in reg.rooms then Ignore(reg)
      else
        var users := reg.rooms[roomName];
        match FirstWithToken(users, token)
        case None =>
          Reaction(reg, [ToSource(ws, Error(InvalidToken, BadTokenText))], NilDereference)
        case Some(i) =>
          var u := users[i];
          Reaction(reg.(rooms := reg.rooms[roomName := users[i := u.(conn := ws)]]),
                   [ToSource(ws, RoomReconnected(u.token, roomName, u.name))],
                   Returned)
  }

  /** reconnect_room with the `return` after the InvalidToken error that the code lacks. */
  function ReconnectFixed(reg: Registry, token: Token, ws: Conn): Reaction
  {
    var r := Reconnect(reg, token, ws);
    if r.outcome == NilDereference then r.(outcome := Returned) else r
  }

  /** send_message: a single broadcast to the room; nothing changes. */
  function Send(reg: Registry, roomName: string, username: string, body: string): Reaction
  {
    if roomName == "" || username == "" || body == "" then Ignore(reg)
    else if roomName !in reg.rooms then Ignore(reg)
    else Reaction(reg, [NewRoomMessage(roomName, MessageReceived(username, body)).value], Returned)
  }

  /** HandleEvents: dispatch on the tag. `ws` is the source connection and `token` the fresh
      token a new member would receive. */
  function Handle(reg: Registry, ev: ClientEvent, ws: Conn, token: Token): Reaction
  {
    match ev
    case CreateRoom(roomName, username) => Create(reg, roomName, username, ws, token)
    case JoinRoom(roomName, username) => Join(reg, roomName, username, ws, token)
    case LeaveRoom(roomName, username, t) => Leave(reg, roomName, username, t, ws)
    case ReconnectRoom(t) => Reconnect(reg, t, ws)
    case SendMessage(roomName, username, body) => Send(reg, roomName, username, body)
    case Undecodable => Ignore(reg)
    case UnknownType(_) => Ignore(reg)
  }

  // ---------------------------------------------------------------------------
  // The registry invariant is kept by every event

  /** Adding a member under an unused token keeps the registries valid. */
  lemma AdmitKeepsValid(reg: Registry, roomName: string, users: seq<User>, u: User)
    requires RegistryValid(reg) && u.token !in reg.tokenIndex
    requires roomName in reg.rooms ==> users == reg.rooms[roomName]
    requires roomName !in reg.rooms ==> users == []
    requires !NameTaken(users, u.name)
    ensures RegistryValid(Registry(reg.rooms[roomName := users + [u]], reg.tokenIndex[u.token := UserRoom(u.name, roomName)]))
  {
    var after := Registry(reg.rooms[roomName := users + [u]], reg.tokenIndex[u.token := UserRoom(u.name, roomName)]);
    AppendFreeNameKeepsNamesUnique(users, u);
    forall k, i | k in after.rooms && 0 <= i < |after.rooms[k]|
      ensures Indexed(after.tokenIndex, after.rooms[k][i], k)
    {
      if k == roomName && i == |users| {
        assert after.rooms[k][i] == u;
      } else if k == roomName {
        assert after.rooms[k][i] == users[i];
        assert Indexed(reg.tokenIndex, users[i], k);
      } else {
        assert Indexed(reg.tokenIndex, reg.rooms[k][i], k);
      }
    }
  }

  lemma LeaveKeepsValid(reg: Registry, roomName: string, username: string, token: Token, ws: Conn)
    requires RegistryValid(reg)
    ensures RegistryValid(Leave(reg, roomName, username, token, ws).after)
  {
    if roomName != "" && username != "" && token != "" && roomName in reg.rooms {
      var after := Leave(reg, roomName, username, token, ws).after;
      var users := reg.rooms[roomName];
      RemovalKeepsNamesUnique(users, token);
      forall k, i | k in after.rooms && 0 <= i < |after.rooms[k]|
        ensures Indexed(after.tokenIndex, after.rooms[k][i], k)
      {
        if k == roomName {
          RemovalKeepsOnlyMembers(users, token, i);
          var j :| 0 <= j < |users| && users[j] == after.rooms[k][i];
          assert Indexed(reg.tokenIndex, users[j], k);
        } else {
          assert Indexed(reg.tokenIndex, reg.rooms[k][i], k);
        }
      }
    }
  }

  lemma ReconnectKeepsValid(reg: Registry, token: Token, ws: Conn)
    requires RegistryValid(reg)
    ensures RegistryValid(Reconnect(reg, token, ws).after)
  {
    var after := Reconnect(reg, token, ws).after;
    if token in reg.tokenIndex && reg.tokenIndex[token].roomName in reg.rooms {
      var roomName := reg.tokenIndex[token].roomName;
      var users := reg.rooms[roomName];
      match FirstWithToken(users, token)
      case None =>
      case Some(i) =>
        var users' := users[i := users[i].(conn := ws)];
        assert after.rooms == reg.rooms[roomName := users'];
        forall a, b | 0 <= a < b < |users'| ensures users'[a].name != users'[b].name {
          assert users[a].name != users[b].name;
        }
        forall k, j | k in after.rooms && 0 <= j < |after.rooms[k]|
          ensures Indexed(after.tokenIndex, after.rooms[k][j], k)
        {
          assert Indexed(reg.tokenIndex, reg.rooms[k][j], k);
        }
    }
  }

  /** Every event keeps the registries valid, given an unused fresh token. */
  lemma HandleKeepsValid(reg: Registry, ev: ClientEvent, ws: Conn, token: Token)
    requires RegistryValid(reg) && token !in reg.tokenIndex
    ensures RegistryValid(Handle(reg, ev, ws, token).after)
  {
    match ev
    case CreateRoom(roomName, username) =>
      if roomName != "" && username != "" && roomName !in reg.rooms {
        AdmitKeepsValid(reg, roomName, [], NewUser(username, ws, token));
        assert [] + [NewUser(username, ws, token)] == [NewUser(username, ws, token)];
      }
    case JoinRoom(roomName, username) =>
      if roomName != "" && username != "" && roomName in reg.rooms && !NameTaken(reg.rooms[roomName], username) {
        AdmitKeepsValid(reg, roomName, reg.rooms[roomName], NewUser(username, ws, token));
      }
    case LeaveRoom(roomName, username, t) => LeaveKeepsValid(reg, roomName, username, t, ws);
    case ReconnectRoom(t) => ReconnectKeepsValid(reg, t, ws);
    case SendMessage(_, _, _) =>
    case Undecodable =>
    case UnknownType(_) =>
  }

  /** TokenToRooms is only ever added to: no event deletes or rewrites an entry, and the only key
      an event can add is the fresh token. Leaving a room does not scrub the index. */
  lemma IndexOnlyGrows(reg: Registry, ev: ClientEvent, ws: Conn, token: Token)
    requires token !in reg.tokenIndex
    ensures var index := Handle(reg, ev, ws, token).after.tokenIndex;
      && index.Keys <= reg.tokenIndex.Keys + {token}
      && forall t :: t in reg.tokenIndex ==> t in index && index[t] == reg.tokenIndex[t]
  {
  }

  /** No event removes a room, and the only room an event can add is the one create_room names. */
  lemma RoomsOnlyGrow(reg: Registry, ev: ClientEvent, ws: Conn, token: Token)
    ensures reg.rooms.Keys <= Handle(reg, ev, ws, token).after.rooms.Keys
    ensures Handle(reg, ev, ws, token).after.rooms.Keys <= reg.rooms.Keys + (if ev.CreateRoom? then {ev.roomName} else {})
  {
  }
}
