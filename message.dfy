/** backend/api/message.go: the outbound deliveries the handler queues for the delivery loop. */
module Messages {
  import opened Wrappers
  import opened Users

  /** MessageType: who a delivery goes to. */
  datatype MessageType = ClientSpecific | RoomBroadcast | GlobalBroadcast

  /** The machine-readable codes carried by error events. */
  datatype ErrorCode = RoomAlreadyExists | UsernameTaken | InvalidToken

  /** The server events the handler builds, as terms (their JSON form is not modelled). */
  datatype ServerEvent =
    | RoomCreated(token: Token, roomName: string)
    | RoomJoined(token: Token, roomName: string)
    | RoomLeft(token: Token, roomName: string)
    | RoomReconnected(token: Token, roomName: string, username: string)
    | MessageReceived(username: string, body: string)
    | Error(code: ErrorCode, message: string)

  /** Message: the target kind, the target connection (None stands for Go's nil), the target
      room name ("" when unused) and the payload. */
  datatype Message = Message(kind: MessageType, client: Option<Conn>, roomName: string, content: ServerEvent)
  {
    /** What the constructors below guarantee and the delivery loop depends on: a
        client-specific message names a connection. */
    predicate WellFormed()
    {
      kind == ClientSpecific ==> client.Some?
    }
  }

  /** Why a constructor refused to build a message. */
  datatype MessageError = NilClient | EmptyRoomName

  /** NewClientMessage: refuses a nil connection; otherwise a message for exactly that
      connection, with no room name and the content untouched. */
  function NewClientMessage(client: Option<Conn>, content: ServerEvent): (r: Result<Message, MessageError>)
    ensures r.Failure? <==> client.None?
    ensures r.Failure? ==> r.error == NilClient
    ensures r.Success? ==> r.value.WellFormed()
    ensures r.Success? ==> r.value.kind == ClientSpecific && r.value.client == client
    ensures r.Success? ==> r.value.roomName == "" && r.value.content == content
  {
    if client.None? then Failure(NilClient)
    else Success(Message(ClientSpecific, client, "", content))
  }

  /** NewRoomMessage: refuses an empty room name; otherwise a message for that room's members,
      with no connection and the content untouched. */
  function NewRoomMessage(roomName: string, content: ServerEvent): (r: Result<Message, MessageError>)
    ensures r.Failure? <==> roomName == ""
    ensures r.Failure? ==> r.error == EmptyRoomName
    ensures r.Success? ==> r.value.WellFormed()
    ensures r.Success? ==> r.value.kind == RoomBroadcast && r.value.roomName == roomName
    ensures r.Success? ==> r.value.client.None? && r.value.content == content
  {
    if roomName == "" then Failure(EmptyRoomName)
    else Success(Message(RoomBroadcast, None, roomName, content))
  }

  /** NewBroadcastMessage: never fails; a message for every connection, with neither a
      connection nor a room name, and the content untouched. */
  function NewBroadcastMessage(content: ServerEvent): (r: Result<Message, MessageError>)
    ensures r.Success? && r.value.WellFormed()
    ensures r.value.kind == GlobalBroadcast && r.value.client.None? && r.value.roomName == ""
    ensures r.value.content == content
  {
    Success(Message(GlobalBroadcast, None, "", content))
  }
}
