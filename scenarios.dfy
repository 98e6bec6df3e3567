/** A worked conversation between two clients: alice creates r1, bob joins, bob says "hi",
    alice tries to join again, alice leaves and tries to reconnect. */
module Scenarios {
  import opened Wrappers
  import opened Users
  import opened Rooms
  import opened State
  import opened Messages
  import opened Protocol
  import opened WebSocket
  import opened Properties

  /** The registries once alice has created r1 and bob has joined it. */
  function AliceAndBob(alice: Conn, bob: Conn, tokenA: Token, tokenB: Token): Registry
  {
    var s1 := Handle(EmptyRegistry, CreateRoom("r1", "alice"), alice, tokenA);
    Handle(s1.after, JoinRoom("r1", "bob"), bob, tokenB).after
  }

  /** create_room answers room_created then room_joined; join_room answers room_joined only;
      r1 then holds alice and bob in join order. */
  lemma CreateThenJoin(alice: Conn, bob: Conn, tokenA: Token, tokenB: Token)
    requires tokenA != tokenB
    ensures var s1 := Handle(EmptyRegistry, CreateRoom("r1", "alice"), alice, tokenA);
      && s1.sent == [ToSource(alice, RoomCreated(tokenA, "r1")), ToSource(alice, RoomJoined(tokenA, "r1"))]
      && Handle(s1.after, JoinRoom("r1", "bob"), bob, tokenB).sent == [ToSource(bob, RoomJoined(tokenB, "r1"))]
    ensures AliceAndBob(alice, bob, tokenA, tokenB) == Registry(
      map["r1" := [User("alice", tokenA, alice), User("bob", tokenB, bob)]],
      map[tokenA := UserRoom("alice", "r1"), tokenB := UserRoom("bob", "r1")])
  {
    var s1 := Handle(EmptyRegistry, CreateRoom("r1", "alice"), alice, tokenA);
    CreateNewRoom(EmptyRegistry, "r1", "alice", alice, tokenA);
    assert s1.after.rooms == map["r1" := [User("alice", tokenA, alice)]];
    assert !NameTaken(s1.after.rooms["r1"], "bob");
    JoinFreeName(s1.after, "r1", "bob", bob, tokenB);
    assert [User("alice", tokenA, alice)] + [User("bob", tokenB, bob)] == [User("alice", tokenA, alice), User("bob", tokenB, bob)];
    assert EmptyRegistry.tokenIndex[tokenA := UserRoom("alice", "r1")][tokenB := UserRoom("bob", "r1")]
      == map[tokenA := UserRoom("alice", "r1"), tokenB := UserRoom("bob", "r1")];
  }

  /** bob's "hi" is one room broadcast, delivered to alice's and then bob's connection. */
  lemma BobSaysHi(alice: Conn, bob: Conn, tokenA: Token, tokenB: Token, spare: Token)
    requires tokenA != tokenB
    ensures var reg := AliceAndBob(alice, bob, tokenA, tokenB);
      var r := Handle(reg, SendMessage("r1", "bob", "hi"), bob, spare);
      && r.sent == [Message(RoomBroadcast, None, "r1", MessageReceived("bob", "hi"))]
      && MemberConns(r.after.rooms["r1"]) == [alice, bob]
  {
    CreateThenJoin(alice, bob, tokenA, tokenB);
    var reg := AliceAndBob(alice, bob, tokenA, tokenB);
    SendToRoom(reg, "r1", "bob", "hi", bob, spare);
  }

  /** A second alice is refused with UsernameTaken and the membership stays as it was. */
  lemma AliceJoinsAgain(alice: Conn, bob: Conn, other: Conn, tokenA: Token, tokenB: Token, spare: Token)
    requires tokenA != tokenB
    ensures var reg := AliceAndBob(alice, bob, tokenA, tokenB);
      var r := Handle(reg, JoinRoom("r1", "alice"), other, spare);
      r.sent == [ToSource(other, Error(UsernameTaken, NameTakenText))] && r.after == reg
  {
    CreateThenJoin(alice, bob, tokenA, tokenB);
    var reg := AliceAndBob(alice, bob, tokenA, tokenB);
    assert reg.rooms["r1"][0].name == "alice";
  }

  /** alice leaves; reconnecting with her token then yields InvalidToken, after which the
      handler as written dereferences the nil user. */
  lemma AliceLeavesThenReconnects(alice: Conn, bob: Conn, other: Conn, tokenA: Token, tokenB: Token, spare: Token)
    requires tokenA != tokenB && tokenA != ""
    ensures var reg := AliceAndBob(alice, bob, tokenA, tokenB);
      var left := Handle(reg, LeaveRoom("r1", "alice", tokenA), alice, spare);
      var back := Handle(left.after, ReconnectRoom(tokenA), other, spare);
      && left.sent == [ToSource(alice, RoomLeft(tokenA, "r1"))]
      && left.after.rooms["r1"] == [User("bob", tokenB, bob)]
      && back.sent == [ToSource(other, Error(InvalidToken, BadTokenText))]
      && back.outcome == NilDereference
  {
    CreateThenJoin(alice, bob, tokenA, tokenB);
    var reg := AliceAndBob(alice, bob, tokenA, tokenB);
    var members := reg.rooms["r1"];
    assert FirstWithToken(members, tokenA) == Some(0);
    assert WithoutToken(members, tokenA) == [User("bob", tokenB, bob)];
  }
}
