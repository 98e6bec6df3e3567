/** backend/api/handlers.go over the live registries: each handler updates the Server in place
    and returns the messages it pushes onto the Messages channel, in push order. Each is proved to
    do exactly what Protocol says of the registries' value. */
module Handlers {
  import opened Wrappers
  import opened Users
  import opened Rooms
  import opened State
  import opened Messages
  import opened Protocol

  datatype LookupError = RoomNotFound(roomName: string)

  /** getRoom: the Room object stored under the name, or an error naming the missing room. */
  function GetRoom(s: Server, roomName: string): (r: Result<Room, LookupError>)
    reads s
    ensures r.Success? <==> roomName in s.rooms
    ensures r.Success? ==> r.value == s.rooms[roomName]
    ensures r.Failure? ==> r.error == RoomNotFound(roomName)
  {
    if roomName in s.rooms then Success(s.rooms[roomName]) else Failure(RoomNotFound(roomName))
  }

  /** After storing or changing the room under `roomName` (and changing no other room), the
      registries' value is the old one with that room's members replaced. */
  lemma AbsAfterRoomUpdate(s: Server, roomName: string, before: map<string, seq<User>>)
    requires s.rooms.Keys == before.Keys + {roomName}
    requires forall k :: k in s.rooms && k != roomName ==> s.rooms[k].users == before[k]
    ensures (map k | k in s.rooms :: s.rooms[k].users) == before[roomName := s.rooms[roomName].users]
  {
  }

  method HandleCreateRoom(s: Server, roomName: string, username: string, ws: Conn, token: Token)
    returns (sent: seq<Message>, outcome: Outcome)
    requires s.Valid() && token !in s.tokenIndex
    modifies s
    ensures s.Valid() && s.clients == old(s.clients)
    ensures forall k :: k in old(s.rooms) ==> k in s.rooms && s.rooms[k] == old(s.rooms[k])
    ensures forall k :: k in s.rooms && k !in old(s.rooms) ==> fresh(s.rooms[k])
    ensures var r := Create(old(s.Abs()), roomName, username, ws, token);
      s.Abs() == r.after && sent == r.sent && outcome == r.outcome
  {
    ghost var before := s.Abs();
    outcome := Returned;
    if roomName == "" || username == "" {
      return [], outcome;
    }
    if roomName in s.rooms {
      return [ToSource(ws, Error(RoomAlreadyExists, RoomTakenText))], outcome;
    }
    var room := new Room(roomName);
    s.rooms := s.rooms[roomName := room];
    var user := NewUser(username, ws, token);
    EmptyRoomAdmitsAnyone(user);
    var _ := room.AddUser(user);
    assert room.users == [user];
    s.tokenIndex := s.tokenIndex[user.token := NewUserRoom(user.name, room.name)];
    sent := [ToSource(ws, RoomCreated(user.token, roomName)), ToSource(ws, RoomJoined(user.token, room.name))];
    assert forall k :: k in before.rooms ==> s.rooms[k] == old(s.rooms[k]) && s.rooms[k].users == before.rooms[k];
    AbsAfterRoomUpdate(s, roomName, before.rooms);
    assert s.Abs() == Create(before, roomName, username, ws, token).after;
    AdmitKeepsValid(before, roomName, [], user);
    assert [] + [user] == [user];
  }

  method HandleJoinRoom(s: Server, roomName: string, username: string, ws: Conn, token: Token)
    returns (sent: seq<Message>, outcome: Outcome)
    requires s.Valid() && token !in s.tokenIndex
    modifies s, s.rooms.Values
    ensures s.Valid() && s.clients == old(s.clients) && s.rooms == old(s.rooms)
    ensures var r := Join(old(s.Abs()), roomName, username, ws, token);
      s.Abs() == r.after && sent == r.sent && outcome == r.outcome
  {
    ghost var before := s.Abs();
    outcome := Returned;
    if roomName == "" || username == "" {
      return [], outcome;
    }
    var found := GetRoom(s, roomName);
    if found.Failure? {
      return [], outcome;
    }
    var room := found.value;
    var user := NewUser(username, ws, token);
    assert forall k :: k in s.rooms && k != roomName ==> s.rooms[k] != room;
    var err := room.AddUser(user);
    assert forall k :: k in s.rooms && k != roomName ==> s.rooms[k].users == before.rooms[k];
    if err.Some? {
      return [ToSource(ws, Error(UsernameTaken, NameTakenText))], outcome;
    }
    s.tokenIndex := s.tokenIndex[user.token := NewUserRoom(user.name, room.name)];
    sent := [ToSource(ws, RoomJoined(user.token, room.name))];
    assert s.rooms.Keys == before.rooms.Keys + {roomName};
    AbsAfterRoomUpdate(s, roomName, before.rooms);
    assert s.Abs() == Join(before, roomName, username, ws, token).after;
    AdmitKeepsValid(before, roomName, before.rooms[roomName], user);
  }

  method HandleLeaveRoom(s: Server, roomName: string, username: string, token: Token, ws: Conn)
    returns (sent: seq<Message>, outcome: Outcome)
    requires s.Valid()
    modifies s.rooms.Values
    ensures s.Valid()
    ensures var r := Leave(old(s.Abs()), roomName, username, token, ws);
      s.Abs() == r.after && sent == r.sent && outcome == r.outcome
  {
    ghost var before := s.Abs();
    outcome := Returned;
    if roomName == "" || username == "" || token == "" {
      return [], outcome;
    }
    var found := GetRoom(s, roomName);
    if found.Failure? {
      return [], outcome;
    }
    var room := found.value;
    assert forall k :: k in s.rooms && k != roomName ==> s.rooms[k] != room;
    room.RemoveUser(token);
    sent := [ToSource(ws, RoomLeft(token, roomName))];
    assert forall k :: k in s.rooms && k != roomName ==> s.rooms[k].users == before.rooms[k];
    assert s.rooms.Keys == before.rooms.Keys + {roomName};
    AbsAfterRoomUpdate(s, roomName, before.rooms);
    assert s.Abs() == Leave(before, roomName, username, token, ws).after;
    LeaveKeepsValid(before, roomName, username, token, ws);
  }

  /** The reconnect handler as written. On NilDereference the Go code panics right after pushing
      the InvalidToken error; the model returns with nothing further changed. */
  method HandleReconnectRoom(s: Server, token: Token, ws: Conn)
    returns (sent: seq<Message>, outcome: Outcome)
    requires s.Valid()
    modifies s.rooms.Values
    ensures s.Valid()
    ensures var r := Reconnect(old(s.Abs()), token, ws);
      s.Abs() == r.after && sent == r.sent && outcome == r.outcome
  {
    ghost var before := s.Abs();
    sent, outcome := [], Returned;
    if token !in s.tokenIndex {
      return;
    }
    var userRoom := s.tokenIndex[token];
    var found := GetRoom(s, userRoom.roomName);
    if found.Failure? {
      return;
    }
    var room := found.value;
    var user := room.GetUserByToken(token);
    if user.None? {
      sent := [ToSource(ws, Error(InvalidToken, BadTokenText))];
      return sent, NilDereference;
    }
    var i := user.value;
    var u := room.users[i];
    assert forall k :: k in s.rooms && k != userRoom.roomName ==> s.rooms[k] != room;
    room.SetConn(i, ws);
    sent := [ToSource(ws, RoomReconnected(u.token, room.name, u.name))];
    assert forall k :: k in s.rooms && k != userRoom.roomName ==> s.rooms[k].users == before.rooms[k];
    assert s.rooms.Keys == before.rooms.Keys + {userRoom.roomName};
    AbsAfterRoomUpdate(s, userRoom.roomName, before.rooms);
    assert s.Abs() == Reconnect(before, token, ws).after;
    ReconnectKeepsValid(before, token, ws);
  }

  method HandleSendMessage(s: Server, roomName: string, username: string, body: string)
    returns (sent: seq<Message>, outcome: Outcome)
    requires s.Valid()
    ensures var r := Send(s.Abs(), roomName, username, body);
      r.after == s.Abs() && sent == r.sent && outcome == r.outcome
  {
    outcome := Returned;
    if roomName == "" || username == "" || body == "" {
      return [], outcome;
    }
    var found := GetRoom(s, roomName);
    if found.Failure? {
      return [], outcome;
    }
    var room := found.value;
    var msg := NewRoomMessage(room.name, MessageReceived(username, body));
    sent := [msg.value];
  }

  /** HandleEvents: one decoded event from connection `ws`; `token` is the fresh token a new
      member would be given. */
  method HandleEvents(s: Server, ev: ClientEvent, ws: Conn, token: Token)
    returns (sent: seq<Message>, outcome: Outcome)
    requires s.Valid() && token !in s.tokenIndex
    modifies s, s.rooms.Values
    ensures s.Valid() && s.clients == old(s.clients)
    ensures forall k :: k in old(s.rooms) ==> k in s.rooms && s.rooms[k] == old(s.rooms[k])
    ensures forall k :: k in s.rooms && k !in old(s.rooms) ==> fresh(s.rooms[k])
    ensures var r := Handle(old(s.Abs()), ev, ws, token);
      s.Abs() == r.after && sent == r.sent && outcome == r.outcome
  {
    match ev
    case CreateRoom(roomName, username) =>
      sent, outcome := HandleCreateRoom(s, roomName, username, ws, token);
    case JoinRoom(roomName, username) =>
      sent, outcome := HandleJoinRoom(s, roomName, username, ws, token);
    case LeaveRoom(roomName, username, t) =>
      sent, outcome := HandleLeaveRoom(s, roomName, username, t, ws);
    case ReconnectRoom(t) =>
      sent, outcome := HandleReconnectRoom(s, t, ws);
    case SendMessage(roomName, username, body) =>
      sent, outcome := HandleSendMessage(s, roomName, username, body);
    case Undecodable =>
      sent, outcome := [], Returned;
    case UnknownType(_) =>
      sent, outcome := [], Returned;
  }
}
