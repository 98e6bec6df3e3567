/** backend/api/state.go: the package-level registries the handler and the delivery loop share. */
module State {
  import opened Users
  import opened Rooms

  /** Where a token was issued: the member's name and the room's name. */
  datatype UserRoom = UserRoom(username: string, roomName: string)

  /** NewUserRoom: the first argument is the member name, the second the room name. */
  function NewUserRoom(username: string, roomname: string): (r: UserRoom)
    ensures r.username == username && r.roomName == roomname
  {
    UserRoom(username, roomname)
  }

  /** The registries as a value: each room's member list by room name, and the reconnect index. */
  datatype Registry = Registry(rooms: map<string, seq<User>>, tokenIndex: map<Token, UserRoom>)

  /** The registries the program starts with. */
  const EmptyRegistry := Registry(map[], map[])

  /** Member `u` of room `roomName` is recorded in the reconnect index under its token. */
  predicate Indexed(index: map<Token, UserRoom>, u: User, roomName: string)
  {
    u.token in index && index[u.token] == UserRoom(u.name, roomName)
  }

  /** What every reachable registry satisfies: names are unique within each room, and every
      present member is indexed under its own token with its own name and room. The index may
      also hold stale entries for members that have left. */
  predicate RegistryValid(reg: Registry)
  {
    && (forall k :: k in reg.rooms ==> UniqueNames(reg.rooms[k]))
    && (forall k, i :: k in reg.rooms && 0 <= i < |reg.rooms[k]| ==> Indexed(reg.tokenIndex, reg.rooms[k][i], k))
  }

  /** In a valid registry no two members of a room share a token: the index would send both to
      the same (name, room) pair, and names are unique within the room. */
  lemma TokensUniqueInRoom(reg: Registry, k: string)
    requires RegistryValid(reg) && k in reg.rooms
    ensures forall a, b :: 0 <= a < b < |reg.rooms[k]| ==> reg.rooms[k][a].token != reg.rooms[k][b].token
  {
    var users := reg.rooms[k];
    forall a, b | 0 <= a < b < |users| ensures users[a].token != users[b].token {
      assert Indexed(reg.tokenIndex, users[a], k) && Indexed(reg.tokenIndex, users[b], k);
      assert users[a].name != users[b].name;
    }
  }

  /** A token not in the index is held by no present member. */
  lemma UnindexedTokenIsUnheld(reg: Registry, token: Token, k: string)
    requires RegistryValid(reg) && token !in reg.tokenIndex && k in reg.rooms
    ensures FirstWithToken(reg.rooms[k], token).None?
  {
    forall j | 0 <= j < |reg.rooms[k]| ensures reg.rooms[k][j].token != token {
      assert Indexed(reg.tokenIndex, reg.rooms[k][j], k);
    }
  }

  /** The registries Clients, Rooms and TokenToRooms. Clients, a map to true in Go, is a set. */
  class Server {
    var rooms: map<string, Room>
    var tokenIndex: map<Token, UserRoom>
    var clients: set<Conn>

    /** All three registries start empty. */
    constructor ()
      ensures rooms == map[] && tokenIndex == map[] && clients == {}
      ensures Valid() && Abs() == EmptyRegistry
    {
      rooms := map[];
      tokenIndex := map[];
      clients := {};
    }

    /** The registries as a value. */
    ghost function Abs(): Registry
      reads this`rooms, this`tokenIndex, rooms.Values
    {
      Registry(map k | k in rooms :: rooms[k].users, tokenIndex)
    }

    /** Each room is stored under its own name (so distinct keys hold distinct Room objects), and
        the registries are valid. */
    ghost predicate Valid()
      reads this`rooms, this`tokenIndex, rooms.Values
    {
      && (forall k :: k in rooms ==> rooms[k].name == k)
      && RegistryValid(Abs())
    }
  }
}
