/** backend/api/websocket.go: the per-connection read loop (HandleConnections) and one step of
    the single delivery loop (HandleMessages). Socket writes are replaced by a write-outcome
    predicate `ok`: a write to connection c succeeds exactly when ok(c). */
module WebSocket {
  import opened Wrappers
  import opened Users
  import opened Rooms
  import opened State
  import opened Messages
  import opened Protocol
  import opened Handlers

  // ---------------------------------------------------------------------------
  // Delivery

  /** The members' connections, in member order: one delivery target per member. */
  function MemberConns(users: seq<User>): (r: seq<Conn>)
    ensures |r| == |users|
    ensures forall i :: 0 <= i < |users| ==> r[i] == users[i].conn
  {
    if users == [] then [] else [users[0].conn] + MemberConns(users[1..])
  }

  /** The connections among `attempts` whose write failed; each is closed and deregistered. */
  function Failed(attempts: seq<Conn>, ok: Conn -> bool): set<Conn>
  {
    set c | c in attempts && !ok(c)
  }

  /** A room broadcast whose room is not registered: the one message that ends HandleMessages. */
  predicate Strands(msg: Message, roomNames: set<string>)
  {
    msg.kind == RoomBroadcast && msg.roomName !in roomNames
  }

  /** Writes to each connection in turn. A failed write closes the connection and removes it
      from Clients; the loop goes on with the next one. */
  method WriteEach(s: Server, conns: seq<Conn>, ok: Conn -> bool) returns (attempts: seq<Conn>)
    modifies s`clients
    ensures attempts == conns
    ensures s.clients == old(s.clients) - Failed(conns, ok)
  {
    attempts := [];
    for i := 0 to |conns|
      invariant attempts == conns[..i]
      invariant s.clients == old(s.clients) - Failed(attempts, ok)
    {
      if !ok(conns[i]) {
        s.clients := s.clients - {conns[i]};
      }
      attempts := attempts + [conns[i]];
    }
  }

  /** `for client := range Clients`: one write to every registered connection, in an order the
      model leaves open, deregistering those whose write failed. */
  method WriteClients(s: Server, ok: Conn -> bool) returns (attempts: seq<Conn>)
    modifies s`clients
    ensures multiset(attempts) == multiset(old(s.clients))
    ensures s.clients == old(s.clients) - Failed(attempts, ok)
  {
    var remaining := s.clients;
    attempts := [];
    while remaining != {}
      invariant remaining <= old(s.clients)
      invariant multiset(attempts) + multiset(remaining) == multiset(old(s.clients))
      invariant s.clients == old(s.clients) - Failed(attempts, ok)
      decreases remaining
    {
      var c :| c in remaining;
      if !ok(c) {
        s.clients := s.clients - {c};
      }
      attempts := attempts + [c];
      remaining := remaining - {c};
    }
  }

  /** One iteration of HandleMessages: the writes attempted for `msg`, in order, and whether the
      loop returns (a room broadcast to an unregistered room). Rooms and their members are never
      touched: a member whose write failed stays in its room. */
  method DeliverOne(s: Server, msg: Message, ok: Conn -> bool) returns (attempts: seq<Conn>, halted: bool)
    requires msg.WellFormed()
    modifies s`clients
    ensures s.rooms == old(s.rooms) && s.Abs() == old(s.Abs())
    ensures halted <==> Strands(msg, s.rooms.Keys)
    ensures halted ==> attempts == []
    ensures msg.kind == ClientSpecific ==> attempts == [msg.client.value]
    ensures msg.kind == RoomBroadcast && !halted ==> attempts == MemberConns(s.rooms[msg.roomName].users)
    ensures msg.kind == GlobalBroadcast ==> multiset(attempts) == multiset(old(s.clients))
    ensures s.clients == old(s.clients) - Failed(attempts, ok)
  {
    halted := false;
    match msg.kind
    case GlobalBroadcast =>
      attempts := WriteClients(s, ok);
    case ClientSpecific =>
      attempts := WriteEach(s, [msg.client.value], ok);
    case RoomBroadcast =>
      if msg.roomName !in s.rooms {
        return [], true;
      }
      var room := s.rooms[msg.roomName];
      attempts := WriteEach(s, MemberConns(room.users), ok);
  }

  /** The index of the first message that strands the consumer, or |queue| when none does. */
  function FirstStranding(queue: seq<Message>, roomNames: set<string>): (n: nat)
    ensures n <= |queue|
    ensures forall i :: 0 <= i < n ==> !Strands(queue[i], roomNames)
    ensures n < |queue| ==> Strands(queue[n], roomNames)
  {
    if queue == [] then 0
    else if Strands(queue[0], roomNames) then 0
    else 1 + FirstStranding(queue[1..], roomNames)
  }

  /** The connections whose write failed anywhere in a run of the loop: `attempts[i]` are the
      writes for the i-th message, whose outcomes `oks[i]` decides. */
  function AllFailed(attempts: seq<seq<Conn>>, oks: seq<Conn -> bool>): set<Conn>
    requires |attempts| <= |oks|
  {
    if attempts == [] then {}
    else AllFailed(attempts[..|attempts| - 1], oks) + Failed(attempts[|attempts| - 1], oks[|attempts| - 1])
  }

  /** Extending a run by one message adds exactly that message's failed writes. */
  lemma AllFailedStep(attempts: seq<seq<Conn>>, w: seq<Conn>, oks: seq<Conn -> bool>)
    requires |attempts| < |oks|
    ensures AllFailed(attempts + [w], oks) == AllFailed(attempts, oks) + Failed(w, oks[|attempts|])
  {
    assert (attempts + [w])[..|attempts|] == attempts;
  }

  /** `attempts[j]` are the writes DeliverOne makes for `queue[j]` over registries `reg`: none
      for a broadcast to an unregistered room, the named connection for a client message, the
      members' connections in order for a registered room. */
  predicate WritesMatch(queue: seq<Message>, attempts: seq<seq<Conn>>, reg: Registry)
    requires |attempts| <= |queue|
  {
    forall j :: 0 <= j < |attempts| ==>
      && (Strands(queue[j], reg.rooms.Keys) ==> attempts[j] == [])
      && (queue[j].kind == ClientSpecific && queue[j].client.Some? ==> attempts[j] == [queue[j].client.value])
      && (queue[j].kind == RoomBroadcast && queue[j].roomName in reg.rooms ==>
            attempts[j] == MemberConns(reg.rooms[queue[j].roomName]))
  }

  /** One more message delivered as DeliverOne promises extends a matching run. */
  lemma WritesMatchStep(queue: seq<Message>, attempts: seq<seq<Conn>>, w: seq<Conn>, reg: Registry)
    requires |attempts| < |queue| && WritesMatch(queue, attempts, reg)
    requires var m := queue[|attempts|];
      && (Strands(m, reg.rooms.Keys) ==> w == [])
      && (m.kind == ClientSpecific && m.client.Some? ==> w == [m.client.value])
      && (m.kind == RoomBroadcast && m.roomName in reg.rooms ==> w == MemberConns(reg.rooms[m.roomName]))
    ensures WritesMatch(queue, attempts + [w], reg)
  {
    var a := attempts + [w];
    forall j | 0 <= j < |a|
      ensures && (Strands(queue[j], reg.rooms.Keys) ==> a[j] == [])
              && (queue[j].kind == ClientSpecific && queue[j].client.Some? ==> a[j] == [queue[j].client.value])
              && (queue[j].kind == RoomBroadcast && queue[j].roomName in reg.rooms ==>
                    a[j] == MemberConns(reg.rooms[queue[j].roomName]))
    {
      if j < |attempts| {
        assert a[j] == attempts[j];
      }
    }
  }

  /** The next message of a run: DeliverOne on `queue[|attempts|]` with that message's write
      outcomes; its writes extend the matching run. */
  method DeliverNext(s: Server, queue: seq<Message>, oks: seq<Conn -> bool>, attempts: seq<seq<Conn>>)
    returns (written: seq<Conn>, halted: bool)
    requires |attempts| < |queue| == |oks| && queue[|attempts|].WellFormed()
    requires WritesMatch(queue, attempts, s.Abs())
    modifies s`clients
    ensures s.rooms == old(s.rooms) && s.Abs() == old(s.Abs())
    ensures WritesMatch(queue, attempts + [written], s.Abs())
    ensures halted <==> Strands(queue[|attempts|], s.Abs().rooms.Keys)
    ensures s.clients == old(s.clients) - Failed(written, oks[|attempts|])
  {
    ghost var reg := s.Abs();
    assert reg.rooms.Keys == s.rooms.Keys;
    written, halted := DeliverOne(s, queue[|attempts|], oks[|attempts|]);
    WritesMatchStep(queue, attempts, written, reg);
  }

  /** HandleMessages as written, fed `queue`: it takes messages in order until it meets a room
      broadcast for an unregistered room, which it takes and then returns on, so no later message
      is ever delivered. `attempts[i]` are the writes for `queue[i]`, whose outcomes `oks[i]`
      decides; exactly the connections whose write failed leave Clients. */
  method HandleMessages(s: Server, queue: seq<Message>, oks: seq<Conn -> bool>) returns (attempts: seq<seq<Conn>>)
    requires forall i :: 0 <= i < |queue| ==> (queue[i].kind == ClientSpecific ==> queue[i].client.Some?)
    requires |oks| == |queue|
    modifies s`clients
    ensures s.Abs() == old(s.Abs())
    ensures |attempts| <= |queue|
    ensures s.clients == old(s.clients) - AllFailed(attempts, oks)
    ensures var n := FirstStranding(queue, s.Abs().rooms.Keys);
      |attempts| == (if n < |queue| then n + 1 else n)
    ensures WritesMatch(queue, attempts, s.Abs())
  {
    attempts := [];
    var i := 0;
    while i < |queue|
      invariant 0 <= i <= FirstStranding(queue, s.Abs().rooms.Keys)
      invariant |attempts| == i
      invariant s.Abs() == old(s.Abs())
      invariant s.clients == old(s.clients) - AllFailed(attempts, oks)
      invariant WritesMatch(queue, attempts, s.Abs())
    {
      assert queue[i].WellFormed();
      var written, halted := DeliverNext(s, queue, oks, attempts);
      AllFailedStep(attempts, written, oks);
      assert old(s.clients) - AllFailed(attempts, oks) - Failed(written, oks[i]) == old(s.clients) - (AllFailed(attempts, oks) + Failed(written, oks[i]));
      attempts := attempts + [written];
      if halted {
        return;
      }
      i := i + 1;
    }
  }

  /** HandleMessages with a broadcast to an unregistered room dropped (logged) instead of ending
      the loop: every message is taken, and exactly the failed writes leave Clients. */
  method HandleMessagesDropMissing(s: Server, queue: seq<Message>, oks: seq<Conn -> bool>) returns (attempts: seq<seq<Conn>>)
    requires forall i :: 0 <= i < |queue| ==> (queue[i].kind == ClientSpecific ==> queue[i].client.Some?)
    requires |oks| == |queue|
    modifies s`clients
    ensures s.Abs() == old(s.Abs())
    ensures |attempts| == |queue|
    ensures s.clients == old(s.clients) - AllFailed(attempts, oks)
    ensures WritesMatch(queue, attempts, s.Abs())
  {
    attempts := [];
    for i := 0 to |queue|
      invariant |attempts| == i
      invariant s.Abs() == old(s.Abs())
      invariant s.clients == old(s.clients) - AllFailed(attempts, oks)
      invariant WritesMatch(queue, attempts, s.Abs())
    {
      assert queue[i].WellFormed();
      var written, _ := DeliverNext(s, queue, oks, attempts);
      AllFailedStep(attempts, written, oks);
      assert old(s.clients) - AllFailed(attempts, oks) - Failed(written, oks[i]) == old(s.clients) - (AllFailed(attempts, oks) + Failed(written, oks[i]));
      attempts := attempts + [written];
    }
  }

  // ---------------------------------------------------------------------------
  // The read loop of one connection

  /** What one read from the connection yields: a decoded event, a read error, or a frame that
      is not a client event envelope. */
  datatype Frame = Received(ev: ClientEvent) | ReadFailed | NotAnEnvelope

  /** Why the read loop stopped: frames ran out (the loop would go on reading), a read error, an
      undecodable envelope, or the nil dereference in the reconnect handler. */
  datatype SessionEnd = StillReading | ReadFailure | DecodeFailure | Panicked

  datatype Session = Session(after: Registry, sent: seq<Message>, end: SessionEnd)

  /** The read loop as a function of the registries: `frames` in order, `tokens[i]` being the
      fresh token for the i-th frame. */
  function Serve(reg: Registry, ws: Conn, frames: seq<Frame>, tokens: seq<Token>): Session
    requires |tokens| == |frames|
    decreases |frames|
  {
    if frames == [] then Session(reg, [], StillReading)
    else match frames[0]
      case ReadFailed => Session(reg, [], ReadFailure)
      case NotAnEnvelope => Session(reg, [], DecodeFailure)
      case Received(ev) =>
        var r := Handle(reg, ev, ws, tokens[0]);
        if r.outcome == NilDereference then Session(r.after, r.sent, Panicked)
        else
          var rest := Serve(r.after, ws, frames[1..], tokens[1..]);
          Session(rest.after, r.sent + rest.sent, rest.end)
  }

  /** `total` is what the loop yields when `sent` has been pushed so far and it goes on from
      registries `reg` at frame i. */
  predicate Resumes(total: Session, sent: seq<Message>, reg: Registry, ws: Conn, frames: seq<Frame>, tokens: seq<Token>, i: nat)
    requires |tokens| == |frames| && i <= |frames|
  {
    var rest := Serve(reg, ws, frames[i..], tokens[i..]);
    total == Session(rest.after, sent + rest.sent, rest.end)
  }

  /** A read error or an undecodable frame at position i ends the loop with what was pushed. */
  lemma ResumesAtFailure(total: Session, sent: seq<Message>, reg: Registry, ws: Conn, frames: seq<Frame>, tokens: seq<Token>, i: nat)
    requires |tokens| == |frames| && i < |frames| && !frames[i].Received?
    requires Resumes(total, sent, reg, ws, frames, tokens, i)
    ensures total == Session(reg, sent, if frames[i].ReadFailed? then ReadFailure else DecodeFailure)
  {
    assert frames[i..][0] == frames[i];
    assert sent + [] == sent;
  }

  /** After the event at position i is handled with reaction `r`, the loop ends in a panic or
      resumes at i + 1 with r's messages pushed. */
  lemma ResumesAfterEvent(total: Session, sent: seq<Message>, reg: Registry, ws: Conn, frames: seq<Frame>, tokens: seq<Token>, i: nat, r: Reaction)
    requires |tokens| == |frames| && i < |frames| && frames[i].Received?
    requires Resumes(total, sent, reg, ws, frames, tokens, i)
    requires r == Handle(reg, frames[i].ev, ws, tokens[i])
    ensures r.outcome == NilDereference ==> total == Session(r.after, sent + r.sent, Panicked)
    ensures r.outcome != NilDereference ==> Resumes(total, sent + r.sent, r.after, ws, frames, tokens, i + 1)
  {
    assert frames[i..][0] == frames[i] && tokens[i..][0] == tokens[i];
    assert frames[i..][1..] == frames[i + 1..] && tokens[i..][1..] == tokens[i + 1..];
    if r.outcome != NilDereference {
      var rest := Serve(r.after, ws, frames[i + 1..], tokens[i + 1..]);
      assert sent + (r.sent + rest.sent) == (sent + r.sent) + rest.sent;
    }
  }

  /** The tokens meant for later frames stay unused after the event at position i. */
  lemma LaterTokensStayFresh(reg: Registry, ev: ClientEvent, ws: Conn, tokens: seq<Token>, i: nat, after: Registry)
    requires i < |tokens| && after == Handle(reg, ev, ws, tokens[i]).after
    requires forall j :: i <= j < |tokens| ==> tokens[j] !in reg.tokenIndex
    requires forall a, b :: 0 <= a < b < |tokens| ==> tokens[a] != tokens[b]
    ensures forall j :: i + 1 <= j < |tokens| ==> tokens[j] !in after.tokenIndex
  {
    IndexOnlyGrows(reg, ev, ws, tokens[i]);
  }

  /** Where the frames run out, the loop has yielded what it pushed. */
  lemma ResumesAtEnd(total: Session, sent: seq<Message>, reg: Registry, ws: Conn, frames: seq<Frame>, tokens: seq<Token>)
    requires |tokens| == |frames|
    requires Resumes(total, sent, reg, ws, frames, tokens, |frames|)
    ensures total == Session(reg, sent, StillReading)
  {
    assert frames[|frames|..] == [];
    assert sent + [] == sent;
  }

  /** One iteration of the read loop at frame i: a read error deregisters `ws` and ends the loop,
      an undecodable frame ends it, and a decoded event goes to `HandleEvents` with its fresh
      token. `stop` is StillReading exactly when the loop goes on at i + 1; otherwise it is how
      the loop ends, and `total` is then complete. */
  method ServeFrame(s: Server, ws: Conn, frames: seq<Frame>, tokens: seq<Token>, i: nat,
                    ghost total: Session, ghost sent: seq<Message>)
    returns (pushed: seq<Message>, stop: SessionEnd)
    requires |tokens| == |frames| && i < |frames|
    requires s.Valid()
    requires forall j :: i <= j < |tokens| ==> tokens[j] !in s.tokenIndex
    requires forall a, b :: 0 <= a < b < |tokens| ==> tokens[a] != tokens[b]
    requires Resumes(total, sent, s.Abs(), ws, frames, tokens, i)
    modifies s, s.rooms.Values
    ensures s.Valid()
    ensures s.clients == if stop == ReadFailure then old(s.clients) - {ws} else old(s.clients)
    ensures forall r :: r in s.rooms.Values ==> r in old(s.rooms.Values) || fresh(r)
    ensures forall j :: i + 1 <= j < |tokens| ==> tokens[j] !in s.tokenIndex
    ensures stop != StillReading ==> total == Session(s.Abs(), sent + pushed, stop)
    ensures stop == StillReading ==> Resumes(total, sent + pushed, s.Abs(), ws, frames, tokens, i + 1)
  {
    ghost var before := s.Abs();
    match frames[i]
    case ReadFailed =>
      ResumesAtFailure(total, sent, before, ws, frames, tokens, i);
      s.clients := s.clients - {ws};
      pushed, stop := [], ReadFailure;
      assert sent + pushed == sent;
    case NotAnEnvelope =>
      ResumesAtFailure(total, sent, before, ws, frames, tokens, i);
      pushed, stop := [], DecodeFailure;
      assert sent + pushed == sent;
    case Received(ev) =>
      var outcome;
      pushed, outcome := HandleEvents(s, ev, ws, tokens[i]);
      LaterTokensStayFresh(before, ev, ws, tokens, i, s.Abs());
      ResumesAfterEvent(total, sent, before, ws, frames, tokens, i, Reaction(s.Abs(), pushed, outcome));
      stop := if outcome == NilDereference then Panicked else StillReading;
  }

  /** HandleConnections after the upgrade: registers `ws` in Clients, hands each decoded event
      to HandleEvents, and stops at the first read error (deregistering `ws`), the first
      undecodable frame (leaving `ws` registered), or a panic in the handler. Returns every
      message pushed, in order. */
  method HandleConnection(s: Server, ws: Conn, frames: seq<Frame>, tokens: seq<Token>)
    returns (sent: seq<Message>, end: SessionEnd)
    requires s.Valid() && |tokens| == |frames|
    requires forall i :: 0 <= i < |tokens| ==> tokens[i] !in s.tokenIndex
    requires forall i, j :: 0 <= i < j < |tokens| ==> tokens[i] != tokens[j]
    modifies s, s.rooms.Values
    ensures s.Valid()
    ensures var r := Serve(old(s.Abs()), ws, frames, tokens);
      s.Abs() == r.after && sent == r.sent && end == r.end
    ensures s.clients == if end == ReadFailure then old(s.clients) - {ws} else old(s.clients) + {ws}
  {
    s.clients := s.clients + {ws};
    ghost var total := Serve(s.Abs(), ws, frames, tokens);
    assert frames[0..] == frames && tokens[0..] == tokens;
    sent, end := [], StillReading;
    var i := 0;
    while i < |frames|
      invariant 0 <= i <= |frames|
      invariant s.Valid() && s.clients == old(s.clients) + {ws}
      invariant forall j :: i <= j < |tokens| ==> tokens[j] !in s.tokenIndex
      invariant forall r :: r in s.rooms.Values ==> r in old(s.rooms.Values) || fresh(r)
      invariant Resumes(total, sent, s.Abs(), ws, frames, tokens, i)
    {
      var pushed, stop := ServeFrame(s, ws, frames, tokens, i, total, sent);
      sent := sent + pushed;
      if stop != StillReading {
        return sent, stop;
      }
      i := i + 1;
    }
    ResumesAtEnd(total, sent, s.Abs(), ws, frames, tokens);
  }
}
