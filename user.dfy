/** backend/entities/user.go: a chat participant (a session inside one room). */
module Users {

  /** A transport connection handle. The model never looks inside it; it only compares handles. */
  datatype Conn = Conn(id: nat)

  /** An opaque reconnect credential. */
  type Token = string

  /** A room member. The Go struct declares only Name and Conn, while room.go and handlers.go read
      and write a Token field as well; the model's User carries it. */
  datatype User = User(name: string, token: Token, conn: Conn)

  /** NewUser: builds the member record from the requested name, the source connection and the
      token handed out for the session. It validates nothing: any name, the empty one included,
      is accepted (callers check for emptiness). */
  function NewUser(username: string, conn: Conn, token: Token): (u: User)
    ensures u.name == username && u.conn == conn && u.token == token
  {
    User(username, token, conn)
  }
}
