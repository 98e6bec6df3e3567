/** backend/entities/room.go: a named room and its ordered member list. */
module Rooms {
  import opened Wrappers
  import opened Users

  // ---------------------------------------------------------------------------
  // The member list as a value

  /** Some member of `users` goes by `name`. */
  predicate NameTaken(users: seq<User>, name: string)
  {
    exists i :: 0 <= i < |users| && users[i].name == name
  }

  /** The room invariant: no two members share a display name. */
  predicate UniqueNames(users: seq<User>)
  {
    forall i, j :: 0 <= i < j < |users| ==> users[i].name != users[j].name
  }

  /** The position of the first member holding `token`, or None when nobody does. */
  function FirstWithToken(users: seq<User>, token: Token): (r: Option<nat>)
    ensures r.Some? ==> r.value < |users| && users[r.value].token == token
    ensures r.Some? ==> forall j :: 0 <= j < r.value ==> users[j].token != token
    ensures r.None? <==> forall j :: 0 <= j < |users| ==> users[j].token != token
  {
    if |users| == 0 then None
    else if users[0].token == token then Some(0)
    else match FirstWithToken(users[1..], token)
      case None => None
      case Some(i) => Some(i + 1)
  }

  /** The member list once the first member holding `token` (if any) is spliced out. */
  function WithoutToken(users: seq<User>, token: Token): seq<User>
  {
    match FirstWithToken(users, token)
    case None => users
    case Some(i) => users[..i] + users[i + 1..]
  }

  /** Removal drops exactly the first holder of the token, keeps everybody else in order, and is
      a no-op when nobody holds it. */
  lemma RemovalDropsFirstHolder(users: seq<User>, token: Token)
    ensures FirstWithToken(users, token).None? ==> WithoutToken(users, token) == users
    ensures FirstWithToken(users, token).Some? ==>
      var i, r := FirstWithToken(users, token).value, WithoutToken(users, token);
      && |r| == |users| - 1
      && multiset(r) + multiset{users[i]} == multiset(users)
      && (forall j :: 0 <= j < i ==> r[j] == users[j])
      && (forall j :: i <= j < |r| ==> r[j] == users[j + 1])
  {
    match FirstWithToken(users, token)
    case None =>
    case Some(i) =>
      assert users == users[..i] + [users[i]] + users[i + 1..];
  }

  /** Every member left after a removal was a member before. */
  lemma RemovalKeepsOnlyMembers(users: seq<User>, token: Token, j: int)
    requires 0 <= j < |WithoutToken(users, token)|
    ensures exists k :: 0 <= k < |users| && users[k] == WithoutToken(users, token)[j]
  {
    RemovalDropsFirstHolder(users, token);
    var r := WithoutToken(users, token);
    match FirstWithToken(users, token)
    case None =>
      assert users[j] == r[j];
    case Some(i) =>
      if j < i { assert users[j] == r[j]; } else { assert users[j + 1] == r[j]; }
  }

  /** Removing a member never breaks the room invariant. */
  lemma RemovalKeepsNamesUnique(users: seq<User>, token: Token)
    requires UniqueNames(users)
    ensures UniqueNames(WithoutToken(users, token))
  {
    RemovalDropsFirstHolder(users, token);
    var r := WithoutToken(users, token);
    match FirstWithToken(users, token)
    case None =>
    case Some(i) =>
      forall a, b | 0 <= a < b < |r| ensures r[a].name != r[b].name {
        var a' := if a < i then a else a + 1;
        var b' := if b < i then b else b + 1;
        assert r[a] == users[a'] && r[b] == users[b'] && a' < b';
      }
  }

  /** Appending a member whose name is free keeps the room invariant. */
  lemma AppendFreeNameKeepsNamesUnique(users: seq<User>, u: User)
    requires UniqueNames(users) && !NameTaken(users, u.name)
    ensures UniqueNames(users + [u])
  {
    var r := users + [u];
    forall a, b | 0 <= a < b < |r| ensures r[a].name != r[b].name {
      if b == |users| {
        assert r[a] == users[a];
      } else {
        assert r[a] == users[a] && r[b] == users[b];
      }
    }
  }

  /** Every first member of a fresh room is admitted, whatever its name: the name check of
      AddUser cannot fail on an empty room. */
  lemma EmptyRoomAdmitsAnyone(u: User)
    ensures !NameTaken([], u.name) && UniqueNames([u])
  {
  }

  /** Tokens are told apart within a list: when no two members share a token, removing the holder
      of `token` leaves nobody holding it. */
  lemma RemovalOfUniqueTokenLeavesNoHolder(users: seq<User>, token: Token)
    requires forall a, b :: 0 <= a < b < |users| ==> users[a].token != users[b].token
    ensures FirstWithToken(WithoutToken(users, token), token).None?
  {
    RemovalDropsFirstHolder(users, token);
    var r := WithoutToken(users, token);
    match FirstWithToken(users, token)
    case None =>
    case Some(i) =>
      forall j | 0 <= j < |r| ensures r[j].token != token {
        if j < i {
          assert r[j] == users[j];
        } else {
          assert r[j] == users[j + 1];
        }
      }
  }

  // ---------------------------------------------------------------------------
  // The room object

  /** The error AddUser reports, carrying what its message names. */
  datatype AddUserError = UserAlreadyExists(username: string, roomName: string)

  class Room {
    /** No method assigns Name after NewRoom; the model makes that structural. */
    const name: string
    var users: seq<User>

    /** NewRoom: a room named `roomName` with no members. */
    constructor (roomName: string)
      ensures name == roomName && users == []
    {
      name := roomName;
      users := [];
    }

    /** AddUser: refuses a name already present and leaves the members alone; otherwise appends
        the user at the end. */
    method AddUser(user: User) returns (err: Option<AddUserError>)
      modifies this`users
      ensures err.Some? <==> NameTaken(old(users), user.name)
      ensures err.Some? ==> err.value == UserAlreadyExists(user.name, name)
      ensures users == if err.Some? then old(users) else old(users) + [user]
    {
      var i := 0;
      while i < |users|
        invariant 0 <= i <= |users|
        invariant forall j :: 0 <= j < i ==> users[j].name != user.name
      {
        if users[i].name == user.name {
          return Some(UserAlreadyExists(user.name, name));
        }
        i := i + 1;
      }
      users := users + [user];
      err := None;
    }

    /** GetUserByToken: the position of the first member holding `token` (the Go code hands out a
        pointer to that member), None when no member holds it. */
    method GetUserByToken(token: Token) returns (r: Option<nat>)
      ensures r.Some? ==> r.value < |users| && users[r.value].token == token
      ensures r.Some? ==> forall j :: 0 <= j < r.value ==> users[j].token != token
      ensures r.None? <==> forall j :: 0 <= j < |users| ==> users[j].token != token
    {
      var i := 0;
      while i < |users|
        invariant 0 <= i <= |users|
        invariant forall j :: 0 <= j < i ==> users[j].token != token
      {
        if users[i].token == token {
          return Some(i);
        }
        i := i + 1;
      }
      return None;
    }

    /** RemoveUser: splices out the first member holding `token`; nothing happens, and no error
        is reported, when there is none. */
    method RemoveUser(token: Token)
      modifies this`users
      ensures users == WithoutToken(old(users), token)
    {
      var i := 0;
      while i < |users|
        invariant 0 <= i <= |users|
        invariant users == old(users)
        invariant forall j :: 0 <= j < i ==> users[j].token != token
      {
        if users[i].token == token {
          assert FirstWithToken(users, token) == Some(i);
          users := users[..i] + users[i + 1..];
          return;
        }
        i := i + 1;
      }
    }

    /** The write `user.Conn = ws` through the pointer GetUserByToken returned: only the member
        at `i` changes, and only its connection. */
    method SetConn(i: nat, conn: Conn)
      requires i < |users|
      modifies this`users
      ensures users == old(users)[i := old(users)[i].(conn := conn)]
    {
      users := users[i := users[i].(conn := conn)];
    }
  }
}
