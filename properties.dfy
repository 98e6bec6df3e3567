/** What the command handler promises, stated over Protocol.Handle: the messages each event
    queues, the state it leaves, and the multi-step behaviour of tokens. */
module Properties {
  import opened Wrappers
  import opened Users
  import opened Rooms
  import opened State
  import opened Messages
  import opened Protocol
  import opened WebSocket

  /** The event carries an empty value in a field its handler requires; reconnect_room requires
      none. */
  predicate MissingField(ev: ClientEvent)
  {
    match ev
    case CreateRoom(roomName, username) => roomName == "" || username == ""
    case JoinRoom(roomName, username) => roomName == "" || username == ""
    case LeaveRoom(roomName, username, token) => roomName == "" || username == "" || token == ""
    case SendMessage(roomName, username, body) => roomName == "" || username == "" || body == ""
    case _ => false
  }

  /** The event names a room (join, leave, send) that is not registered. */
  predicate NamesMissingRoom(reg: Registry, ev: ClientEvent)
  {
    (ev.JoinRoom? || ev.LeaveRoom? || ev.SendMessage?) && ev.roomName !in reg.rooms
  }

  /** Events the handler only logs: undecodable data, an empty required field, a join, leave or
      send naming a missing room, an unknown tag. They change nothing and queue nothing. */
  lemma LoggedOnlyEventsChangeNothing(reg: Registry, ev: ClientEvent, ws: Conn, token: Token)
    requires ev.Undecodable? || ev.UnknownType? || MissingField(ev) || NamesMissingRoom(reg, ev)
    ensures Handle(reg, ev, ws, token) == Reaction(reg, [], Returned)
  {
  }

  /** create_room for a registered name changes nothing and queues one RoomAlreadyExists error
      for the source. */
  lemma CreateTakenRoom(reg: Registry, roomName: string, username: string, ws: Conn, token: Token)
    requires roomName != "" && username != "" && roomName in reg.rooms
    ensures var r := Handle(reg, CreateRoom(roomName, username), ws, token);
      && r.after == reg && r.outcome == Returned && |r.sent| == 1
      && r.sent[0].kind == ClientSpecific && r.sent[0].client == Some(ws)
      && r.sent[0].content == Error(RoomAlreadyExists, RoomTakenText)
  {
  }

  /** create_room for a new name registers exactly that room with the creator as its only
      member, indexes the fresh token, and queues room_created then room_joined, both for the
      source and both carrying that token. */
  lemma CreateNewRoom(reg: Registry, roomName: string, username: string, ws: Conn, token: Token)
    requires roomName != "" && username != "" && roomName !in reg.rooms
    ensures var r := Handle(reg, CreateRoom(roomName, username), ws, token);
      && r.after.rooms.Keys == reg.rooms.Keys + {roomName}
      && r.after.rooms[roomName] == [User(username, token, ws)]
      && (forall k :: k in reg.rooms ==> r.after.rooms[k] == reg.rooms[k])
      && r.after.tokenIndex == reg.tokenIndex[token := UserRoom(username, roomName)]
      && r.outcome == Returned && |r.sent| == 2
      && (forall m :: m in r.sent ==> m.kind == ClientSpecific && m.client == Some(ws))
      && r.sent[0].content == RoomCreated(token, roomName)
      && r.sent[1].content == RoomJoined(token, roomName)
  {
  }

  /** join_room under a name the room already has leaves everything as it was and queues one
      UsernameTaken error for the source. */
  lemma JoinTakenName(reg: Registry, roomName: string, username: string, ws: Conn, token: Token)
    requires roomName != "" && username != "" && roomName in reg.rooms
    requires NameTaken(reg.rooms[roomName], username)
    ensures var r := Handle(reg, JoinRoom(roomName, username), ws, token);
      && r.after == reg && r.outcome == Returned && |r.sent| == 1
      && r.sent[0].kind == ClientSpecific && r.sent[0].client == Some(ws)
      && r.sent[0].content == Error(UsernameTaken, NameTakenText)
  {
  }

  /** A successful join_room appends the user to that room only, indexes the token, and queues
      exactly one room_joined for the source. */
  lemma JoinFreeName(reg: Registry, roomName: string, username: string, ws: Conn, token: Token)
    requires roomName != "" && username != "" && roomName in reg.rooms
    requires !NameTaken(reg.rooms[roomName], username)
    ensures var r := Handle(reg, JoinRoom(roomName, username), ws, token);
      && r.after.rooms == reg.rooms[roomName := reg.rooms[roomName] + [User(username, token, ws)]]
      && r.after.tokenIndex == reg.tokenIndex[token := UserRoom(username, roomName)]
      && r.outcome == Returned && |r.sent| == 1
      && r.sent[0].kind == ClientSpecific && r.sent[0].client == Some(ws)
      && r.sent[0].content == RoomJoined(token, roomName)
  {
  }

  /** leave_room on a registered room removes the first member holding the token (if any),
      keeps the index, and always queues room_left for the source, matched or not. */
  lemma LeaveByToken(reg: Registry, roomName: string, username: string, token: Token, ws: Conn, fresh1: Token)
    requires roomName != "" && username != "" && token != "" && roomName in reg.rooms
    ensures var r := Handle(reg, LeaveRoom(roomName, username, token), ws, fresh1);
      && r.after.rooms == reg.rooms[roomName := WithoutToken(reg.rooms[roomName], token)]
      && r.after.tokenIndex == reg.tokenIndex
      && (FirstWithToken(reg.rooms[roomName], token).None? ==> r.after == reg)
      && r.outcome == Returned && |r.sent| == 1
      && r.sent[0].kind == ClientSpecific && r.sent[0].client == Some(ws)
      && r.sent[0].content == RoomLeft(token, roomName)
  {
  }

  /** The username a leave_room carries selects nothing: any two non-empty usernames give the
      same reaction. */
  lemma LeaveIgnoresUsername(reg: Registry, roomName: string, name1: string, name2: string, token: Token, ws: Conn, fresh1: Token, fresh2: Token)
    requires name1 != "" && name2 != ""
    ensures Handle(reg, LeaveRoom(roomName, name1, token), ws, fresh1) == Handle(reg, LeaveRoom(roomName, name2, token), ws, fresh2)
  {
  }

  /** reconnect_room with a token the index does not know, or whose indexed room is gone,
      changes nothing and queues nothing. */
  lemma ReconnectUnknown(reg: Registry, token: Token, ws: Conn, fresh1: Token)
    requires token !in reg.tokenIndex || reg.tokenIndex[token].roomName !in reg.rooms
    ensures Handle(reg, ReconnectRoom(token), ws, fresh1) == Reaction(reg, [], Returned)
  {
  }

  /** reconnect_room for a present member rebinds only that member's connection and queues one
      room_reconnected for the source. */
  lemma ReconnectPresentMember(reg: Registry, roomName: string, i: nat, ws: Conn, fresh1: Token)
    requires RegistryValid(reg) && roomName in reg.rooms && i < |reg.rooms[roomName]|
    ensures var u := reg.rooms[roomName][i];
      var r := Handle(reg, ReconnectRoom(u.token), ws, fresh1);
      && r.after.tokenIndex == reg.tokenIndex
      && r.after.rooms == reg.rooms[roomName := reg.rooms[roomName][i := u.(conn := ws)]]
      && r.outcome == Returned && |r.sent| == 1
      && r.sent[0].kind == ClientSpecific && r.sent[0].client == Some(ws)
      && r.sent[0].content == RoomReconnected(u.token, roomName, u.name)
  {
    var users := reg.rooms[roomName];
    var u := users[i];
    assert Indexed(reg.tokenIndex, u, roomName);
    TokensUniqueInRoom(reg, roomName);
  }

  /** As written, a token whose indexed room no longer holds it queues InvalidToken and then
      dereferences the nil user; the registries do not change. */
  lemma ReconnectStaleTokenCrashes(reg: Registry, token: Token, ws: Conn, fresh1: Token)
    requires token in reg.tokenIndex && reg.tokenIndex[token].roomName in reg.rooms
    requires FirstWithToken(reg.rooms[reg.tokenIndex[token].roomName], token).None?
    ensures var r := Handle(reg, ReconnectRoom(token), ws, fresh1);
      && r.after == reg && r.outcome == NilDereference && |r.sent| == 1
      && r.sent[0].kind == ClientSpecific && r.sent[0].client == Some(ws)
      && r.sent[0].content == Error(InvalidToken, BadTokenText)
  {
  }

  /** With the missing `return` added, reconnect never crashes; a stale token gets exactly the
      InvalidToken error, and every other case is as written. */
  lemma ReconnectFixedNeverCrashes(reg: Registry, token: Token, ws: Conn)
    ensures ReconnectFixed(reg, token, ws).outcome == Returned
    ensures ReconnectFixed(reg, token, ws).after == Reconnect(reg, token, ws).after
    ensures ReconnectFixed(reg, token, ws).sent == Reconnect(reg, token, ws).sent
    ensures (token in reg.tokenIndex && reg.tokenIndex[token].roomName in reg.rooms &&
             FirstWithToken(reg.rooms[reg.tokenIndex[token].roomName], token).None?) ==>
      ReconnectFixed(reg, token, ws) == Reaction(reg, [ToSource(ws, Error(InvalidToken, BadTokenText))], Returned)
  {
  }

  /** send_message to a registered room changes nothing and queues one broadcast addressed to
      that room, carrying the sender's name and the body. */
  lemma SendToRoom(reg: Registry, roomName: string, username: string, body: string, ws: Conn, token: Token)
    requires roomName != "" && username != "" && body != "" && roomName in reg.rooms
    ensures var r := Handle(reg, SendMessage(roomName, username, body), ws, token);
      && r.after == reg && r.outcome == Returned && |r.sent| == 1
      && r.sent[0].kind == RoomBroadcast && r.sent[0].roomName == roomName && r.sent[0].client.None?
      && r.sent[0].content == MessageReceived(username, body)
  {
  }

  /** Everything the handler queues is well formed; every message but a room broadcast goes to
      the source; every room broadcast names a registered room, so the delivery loop is never
      stranded by one. */
  lemma HandlerMessagesAreDeliverable(reg: Registry, ev: ClientEvent, ws: Conn, token: Token)
    ensures var r := Handle(reg, ev, ws, token);
      forall m :: m in r.sent ==>
        && m.WellFormed() && m.kind != GlobalBroadcast
        && (m.kind == ClientSpecific ==> m.client == Some(ws))
        && (m.kind == RoomBroadcast ==> m.roomName in r.after.rooms && !Strands(m, r.after.rooms.Keys))
  {
  }

  /** End to end, send_message fans out to the whole room, sender included: the one message it
      queues for a registered room of N members passes the delivery loop's room lookup, and its
      targets (DeliverOne's MemberConns of that room) are N, one per member connection in member
      order. */
  lemma RoomFanOut(reg: Registry, roomName: string, username: string, body: string, ws: Conn, token: Token)
    requires roomName != "" && username != "" && body != "" && roomName in reg.rooms
    ensures var r := Handle(reg, SendMessage(roomName, username, body), ws, token);
      var users := reg.rooms[roomName];
      && |r.sent| == 1 && !Strands(r.sent[0], r.after.rooms.Keys)
      && r.sent[0].roomName in r.after.rooms && r.after.rooms[r.sent[0].roomName] == users
      && |MemberConns(r.after.rooms[r.sent[0].roomName])| == |users|
      && (forall i :: 0 <= i < |users| ==> MemberConns(r.after.rooms[r.sent[0].roomName])[i] == users[i].conn)
  {
  }

  /** A token handed out by create_room or join_room is accepted by a later reconnect_room, which
      rebinds that very member. */
  lemma IssuedTokenReconnects(reg: Registry, ev: ClientEvent, ws: Conn, token: Token, ws2: Conn, fresh2: Token)
    requires RegistryValid(reg) && token !in reg.tokenIndex
    requires ev.CreateRoom? || ev.JoinRoom?
    requires var r := Handle(reg, ev, ws, token); |r.sent| > 0 && r.sent[|r.sent| - 1].content == RoomJoined(token, ev.roomName)
    ensures var after := Handle(reg, ev, ws, token).after;
      var r2 := Handle(after, ReconnectRoom(token), ws2, fresh2);
      && r2.outcome == Returned && |r2.sent| == 1
      && r2.sent[0].content == RoomReconnected(token, ev.roomName, ev.username)
  {
    HandleKeepsValid(reg, ev, ws, token);
    var after := Handle(reg, ev, ws, token).after;
    var users := after.rooms[ev.roomName];
    ReconnectPresentMember(after, ev.roomName, |users| - 1, ws2, fresh2);
  }

  /** Once a member has left, its token is stale: the index still knows it, but reconnect_room
      finds no member. As written that is InvalidToken followed by the nil dereference; with the
      missing `return` it is the InvalidToken error alone. */
  lemma LeaveThenReconnect(reg: Registry, roomName: string, i: nat, username: string, ws: Conn, ws2: Conn, fresh1: Token, fresh2: Token)
    requires RegistryValid(reg) && roomName in reg.rooms && i < |reg.rooms[roomName]|
    requires username != "" && reg.rooms[roomName][i].token != "" && roomName != ""
    ensures var t := reg.rooms[roomName][i].token;
      var after := Handle(reg, LeaveRoom(roomName, username, t), ws, fresh1).after;
      && Handle(after, ReconnectRoom(t), ws2, fresh2).outcome == NilDereference
      && Handle(after, ReconnectRoom(t), ws2, fresh2).sent == [ToSource(ws2, Error(InvalidToken, BadTokenText))]
      && ReconnectFixed(after, t, ws2) == Reaction(after, [ToSource(ws2, Error(InvalidToken, BadTokenText))], Returned)
  {
    var t := reg.rooms[roomName][i].token;
    assert Indexed(reg.tokenIndex, reg.rooms[roomName][i], roomName);
    TokensUniqueInRoom(reg, roomName);
    RemovalOfUniqueTokenLeavesNoHolder(reg.rooms[roomName], t);
  }

  /** Room names are claimed once: after a create_room succeeds, every later create_room for
      that name, whatever happens between, is refused with RoomAlreadyExists. */
  lemma RoomNameClaimedOnce(reg: Registry, roomName: string, username: string, ws: Conn, token: Token,
                            between: seq<ClientEvent>, conns: seq<Conn>, tokens: seq<Token>,
                            username2: string, ws2: Conn, token2: Token)
    requires roomName != "" && username != "" && username2 != "" && roomName !in reg.rooms
    requires |between| == |conns| == |tokens|
    ensures var later := Replay(Handle(reg, CreateRoom(roomName, username), ws, token).after, between, conns, tokens);
      var r := Handle(later, CreateRoom(roomName, username2), ws2, token2);
      r.after == later && r.outcome == Returned && r.sent == [ToSource(ws2, Error(RoomAlreadyExists, RoomTakenText))]
  {
    var first := Handle(reg, CreateRoom(roomName, username), ws, token).after;
    ReplayKeepsRooms(first, between, conns, tokens);
  }

  /** The registries after handling `events` in order, the i-th from conns[i] with fresh token
      tokens[i]. */
  function Replay(reg: Registry, events: seq<ClientEvent>, conns: seq<Conn>, tokens: seq<Token>): Registry
    requires |events| == |conns| == |tokens|
    decreases |events|
  {
    if events == [] then reg
    else Replay(Handle(reg, events[0], conns[0], tokens[0]).after, events[1..], conns[1..], tokens[1..])
  }

  lemma {:induction false} ReplayKeepsRooms(reg: Registry, events: seq<ClientEvent>, conns: seq<Conn>, tokens: seq<Token>)
    requires |events| == |conns| == |tokens|
    ensures reg.rooms.Keys <= Replay(reg, events, conns, tokens).rooms.Keys
    decreases |events|
  {
    if events != [] {
      RoomsOnlyGrow(reg, events[0], conns[0], tokens[0]);
      ReplayKeepsRooms(Handle(reg, events[0], conns[0], tokens[0]).after, events[1..], conns[1..], tokens[1..]);
    }
  }

  /** Room-name uniqueness and index consistency hold after any sequence of events, as long as
      every fresh token is new. */
  lemma {:induction false} ReplayKeepsValid(reg: Registry, events: seq<ClientEvent>, conns: seq<Conn>, tokens: seq<Token>)
    requires |events| == |conns| == |tokens| && RegistryValid(reg)
    requires forall i :: 0 <= i < |tokens| ==> tokens[i] !in reg.tokenIndex
    requires forall i, j :: 0 <= i < j < |tokens| ==> tokens[i] != tokens[j]
    ensures RegistryValid(Replay(reg, events, conns, tokens))
    decreases |events|
  {
    if events != [] {
      HandleKeepsValid(reg, events[0], conns[0], tokens[0]);
      IndexOnlyGrows(reg, events[0], conns[0], tokens[0]);
      var next := Handle(reg, events[0], conns[0], tokens[0]).after;
      assert forall i :: 0 <= i < |tokens[1..]| ==> tokens[1..][i] == tokens[i + 1] && tokens[0] != tokens[i + 1];
      ReplayKeepsValid(next, events[1..], conns[1..], tokens[1..]);
    }
  }
}
