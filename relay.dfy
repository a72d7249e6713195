/**
 * The relay server as it runs: one object holding the rooms map, the two
 * properties set on each open socket, each socket's receive buffer and the
 * log of everything written to sockets.  Its handlers update those fields
 * in place, step by step as the JavaScript does, and each is proved to
 * perform the transition of module RoomServer, so the invariant and the
 * rules proved there hold of the running server.
 */
module Relay {
  import opened Wrappers
  import opened Wire
  import opened RoomServer

  class Server {
    /** The rooms map (`rooms`). */
    var rooms: map<Code, Room>
    /** socket.roomCode and socket.isHost of every open socket. */
    var sessions: map<Id, Session>
    /** The values Math.random has still to give generateRoomCode. */
    var draws: seq<Draw>
    /** The `buffer` of each open socket's connection callback. */
    var buffers: map<Id, seq<Byte>>
    /** Every socket.write so far, in order. */
    var outbox: seq<Packet>

    /** The part of the state the transitions of RoomServer are about. */
    function State(): Hub
      reads this`rooms, this`sessions, this`draws
    {
      Hub(rooms, sessions, draws)
    }

    /** The invariant with the corrected close handler, and every write fitting a frame. */
    ghost predicate Valid()
      reads this`rooms, this`sessions, this`draws, this`outbox
    {
      Consistent(State()) && Sendable(outbox)
    }

    /** A receive buffer for each open socket. */
    predicate Tracked()
      reads this`buffers, this`sessions
    {
      buffers.Keys == sessions.Keys
    }

    /** A server with no room and no socket, and the draws Math.random will give. */
    constructor (randoms: seq<Draw>)
      ensures Valid() && Tracked()
      ensures rooms == map[] && sessions == map[] && draws == randoms && buffers == map[] && outbox == []
    {
      rooms := map[];
      sessions := map[];
      draws := randoms;
      buffers := map[];
      outbox := [];
    }

    /** The connection callback: a socket with neither property set, and an empty buffer. */
    method Open(id: Id)
      requires Valid() && Tracked() && id !in sessions
      modifies this
      ensures Valid() && Tracked()
      ensures sessions == old(sessions)[id := Session(None, false)] && buffers == old(buffers)[id := []]
      ensures rooms == old(rooms) && draws == old(draws) && outbox == old(outbox)
    {
      Opened(State(), id);
      sessions := sessions[id := Session(None, false)];
      buffers := buffers[id := []];
    }

    /** sendMessage: writeUInt16LE throws for a length of 65536 or more. */
    method SendMessage(to: Id, data: seq<Byte>)
      requires |data| < 65536
      modifies this
      ensures outbox == old(outbox) + [Packet(to, data)]
      ensures rooms == old(rooms) && sessions == old(sessions) && draws == old(draws) && buffers == old(buffers)
    {
      outbox := outbox + [Packet(to, data)];
    }

    /**
     * A loop over room.players sending data to each one but `except`:
     * broadcastToRoom skips the sender, the GameStart, GameWin and
     * PlayerLeft loops skip nobody.
     */
    method Deliver(ps: seq<Player>, except: Option<Id>, data: seq<Byte>)
      requires |data| < 65536
      modifies this
      ensures outbox == old(outbox) + Deliveries(ps, except, data)
      ensures rooms == old(rooms) && sessions == old(sessions) && draws == old(draws) && buffers == old(buffers)
    {
      for i := 0 to |ps|
        invariant outbox + Deliveries(ps[i..], except, data) == old(outbox) + Deliveries(ps, except, data)
        invariant rooms == old(rooms) && sessions == old(sessions) && draws == old(draws) && buffers == old(buffers)
      {
        DeliveriesStep(outbox, ps, i, except, data);
        if Some(ps[i].id) != except {
          SendMessage(ps[i].id, data);
        }
      }
    }

    /** `for (const player of room.players) player.reachedExit = false` */
    static method ClearExits(ps: seq<Player>) returns (qs: seq<Player>)
      ensures qs == Cleared(ps)
    {
      qs := ps;
      var i := 0;
      while i < |qs|
        invariant 0 <= i <= |qs| == |ps|
        invariant forall k :: 0 <= k < i ==> qs[k] == ps[k].(reachedExit := false)
        invariant forall k :: i <= k < |qs| ==> qs[k] == ps[k]
      {
        qs := qs[i := qs[i].(reachedExit := false)];
        i := i + 1;
      }
    }

    /**
     * The do/while loop around generateRoomCode: draws until a code that is
     * not a room.  When the draws run out no code is found and nothing is
     * consumed.
     */
    method GenerateCode() returns (code: Option<Code>)
      modifies this
      ensures var f := FreshCode(old(rooms), old(draws));
        (f.None? ==> code.None? && draws == old(draws))
        && (f.Some? ==> code == Some(f.value.0) && draws == f.value.1)
      ensures rooms == old(rooms) && sessions == old(sessions) && buffers == old(buffers) && outbox == old(outbox)
    {
      var i := 0;
      while i < |draws| && Digits(draws[i]) in rooms
        invariant 0 <= i <= |draws|
        invariant FreshCode(rooms, draws) == FreshCode(rooms, draws[i..])
      {
        assert draws[i..][0] == draws[i] && draws[i..][1..] == draws[i + 1..];
        i := i + 1;
      }
      if i == |draws| {
        assert draws[i..] == [];
        code := None;
      } else {
        assert draws[i..][0] == draws[i] && draws[i..][1..] == draws[i + 1..];
        code := Some(Digits(draws[i]));
        draws := draws[i + 1..];
      }
    }

    /** case MessageType.CreateRoom */
    method CreateRoom(id: Id, data: seq<Byte>)
      requires id in sessions && |data| >= 1
      modifies this
      ensures State() == CreateRoomStep(old(State()), id, data).hub
      ensures outbox == old(outbox) + CreateRoomStep(old(State()), id, data).sent && buffers == old(buffers)
    {
      if |data| < 5 {
        return;
      }
      var width := ReadU16(data, 1);
      var height := ReadU16(data, 3);
      var code := GenerateCode();
      if code.None? {
        return;
      }
      rooms := rooms[code.value := Room(width, height, None, [Player(id, false, true)], false)];
      sessions := sessions[id := Session(code, true)];
      SendMessage(id, RoomReply(MsgRoomCreated, code.value));
    }

    /** case MessageType.MazeData */
    method MazeData(id: Id, data: seq<Byte>)
      requires id in sessions && |data| < 65536
      modifies this
      ensures State() == MazeDataStep(old(State()), id, data).hub
      ensures outbox == old(outbox) + MazeDataStep(old(State()), id, data).sent && buffers == old(buffers)
    {
      var roomCode := sessions[id].roomCode;
      if roomCode.None? || roomCode.value !in rooms || !sessions[id].isHost {
        return;
      }
      var code := roomCode.value;
      var room := rooms[code].(mazeData := Some(data));
      if |room.players| == 2 && !room.started {
        rooms := rooms[code := room.(started := true)];
        BeginGame(room.players, data);
      } else {
        rooms := rooms[code := room];
      }
    }

    /** The host's maze goes to the guest, then GameStart to both players. */
    method BeginGame(ps: seq<Player>, data: seq<Byte>)
      requires |data| < 65536
      modifies this
      ensures var guest := FindRole(ps, false);
        outbox == old(outbox) + ((if guest.Some? then [Packet(ps[guest.value].id, data)] else [])
                                 + Deliveries(ps, None, [MsgGameStart]))
      ensures rooms == old(rooms) && sessions == old(sessions) && draws == old(draws) && buffers == old(buffers)
    {
      SendToGuest(ps, data);
      ghost var toGuest := outbox[|old(outbox)|..];
      assert outbox == old(outbox) + toGuest;
      Deliver(ps, None, [MsgGameStart]);
      assert outbox == old(outbox) + toGuest + Deliveries(ps, None, [MsgGameStart]);
    }

    /** The maze to the waiting guest: room.players.find(p => !p.isHost), when there is one. */
    method SendToGuest(ps: seq<Player>, data: seq<Byte>)
      requires |data| < 65536
      modifies this
      ensures var guest := FindRole(ps, false);
        outbox == old(outbox) + (if guest.Some? then [Packet(ps[guest.value].id, data)] else [])
      ensures rooms == old(rooms) && sessions == old(sessions) && draws == old(draws) && buffers == old(buffers)
    {
      var guest := FindRole(ps, false);
      if guest.Some? {
        SendMessage(ps[guest.value].id, data);
      }
    }

    /** case MessageType.JoinRoom */
    method JoinRoom(id: Id, data: seq<Byte>)
      requires MazesFit(rooms) && id in sessions
      modifies this
      ensures State() == JoinRoomStep(old(State()), id, data).hub
      ensures outbox == old(outbox) + JoinRoomStep(old(State()), id, data).sent && buffers == old(buffers)
    {
      var code := JoinCode(data);
      if code !in rooms {
        SendMessage(id, RoomReply(MsgRoomError, NotFound));
      } else if |rooms[code].players| >= 2 {
        SendMessage(id, RoomReply(MsgRoomError, Full));
      } else {
        Admit(id, code);
      }
    }

    /**
     * JoinRoom to a room with one player: push the guest entry and set the
     * socket's properties; with a stored maze, start and send the joiner
     * the maze, otherwise ask the host for it.
     */
    method Admit(id: Id, code: Code)
      requires MazesFit(rooms) && id in sessions && code in rooms && |code| < 256
      modifies this
      ensures State() == RoomServer.Admit(old(State()), id, code).hub
      ensures outbox == old(outbox) + RoomServer.Admit(old(State()), id, code).sent && buffers == old(buffers)
    {
      var room := rooms[code];
      var players := room.players + [Player(id, false, false)];
      sessions := sessions[id := Session(Some(code), false)];
      if room.mazeData.Some? {
        rooms := rooms[code := room.(players := players, started := true)];
        StartGame(id, code, room.mazeData.value, players);
      } else {
        rooms := rooms[code := room.(players := players)];
        SendMessage(id, RoomReply(MsgRoomJoined, code));
        RequestMaze(players);
      }
    }

    /** The joiner of a room with a stored maze gets the reply and the maze, and everyone GameStart. */
    method StartGame(id: Id, code: Code, maze: seq<Byte>, ps: seq<Player>)
      requires |code| < 256 && |maze| < 65536
      modifies this
      ensures outbox == old(outbox) + ([Packet(id, RoomReply(MsgRoomJoined, code)), Packet(id, maze)]
                                       + Deliveries(ps, None, [MsgGameStart]))
      ensures rooms == old(rooms) && sessions == old(sessions) && draws == old(draws) && buffers == old(buffers)
    {
      SendMessage(id, RoomReply(MsgRoomJoined, code));
      SendMessage(id, maze);
      Deliver(ps, None, [MsgGameStart]);
    }

    /** Asking the host of a room for its maze: room.players.find(p => p.isHost), when there is one. */
    method RequestMaze(ps: seq<Player>)
      modifies this
      ensures var host := FindRole(ps, true);
        outbox == old(outbox) + (if host.Some? then [Packet(ps[host.value].id, [MsgRequestMaze])] else [])
      ensures rooms == old(rooms) && sessions == old(sessions) && draws == old(draws) && buffers == old(buffers)
    {
      var host := FindRole(ps, true);
      if host.Some? {
        SendMessage(ps[host.value].id, [MsgRequestMaze]);
      }
    }

    /** PlayerUpdate, PlayerShoot, GameResult and the NPC messages: broadcastToRoom once started. */
    method Relay(id: Id, data: seq<Byte>)
      requires id in sessions && |data| < 65536
      modifies this
      ensures State() == RelayStep(old(State()), id, data).hub
      ensures outbox == old(outbox) + RelayStep(old(State()), id, data).sent && buffers == old(buffers)
    {
      var roomCode := sessions[id].roomCode;
      if roomCode.None? || roomCode.value !in rooms || !rooms[roomCode.value].started {
        return;
      }
      Deliver(rooms[roomCode.value].players, Some(id), data);
    }

    /** case MessageType.ReachExit */
    method ReachExit(id: Id, data: seq<Byte>)
      requires id in sessions && |data| < 65536
      modifies this
      ensures State() == ReachExitStep(old(State()), id, data).hub
      ensures outbox == old(outbox) + ReachExitStep(old(State()), id, data).sent && buffers == old(buffers)
    {
      var roomCode := sessions[id].roomCode;
      if roomCode.None? || roomCode.value !in rooms || !rooms[roomCode.value].started {
        return;
      }
      var code := roomCode.value;
      var room := rooms[code];
      var k := FindId(room.players, id);
      if k.Some? {
        var players := room.players[k.value := room.players[k.value].(reachedExit := true)];
        rooms := rooms[code := room.(players := players)];
        Reached(players, id, data);
      } else {
        Deliver(room.players, Some(id), data);
      }
    }

    /** After marking the sender: GameWin to everyone when every flag is set, then the message to the others. */
    method Reached(ps: seq<Player>, id: Id, data: seq<Byte>)
      requires |data| < 65536
      modifies this
      ensures outbox == old(outbox) + ((if AllReached(ps) then Deliveries(ps, None, [MsgGameWin]) else [])
                                       + Deliveries(ps, Some(id), data))
      ensures rooms == old(rooms) && sessions == old(sessions) && draws == old(draws) && buffers == old(buffers)
    {
      ghost var before := outbox;
      ghost var win := if AllReached(ps) then Deliveries(ps, None, [MsgGameWin]) else [];
      if AllReached(ps) {
        Deliver(ps, None, [MsgGameWin]);
      }
      assert outbox == before + win;
      Deliver(ps, Some(id), data);
      assert outbox == before + win + Deliveries(ps, Some(id), data);
    }

    /** case MessageType.RestartRequest */
    method Restart(id: Id, data: seq<Byte>)
      requires id in sessions && |data| < 65536
      modifies this
      ensures State() == RestartStep(old(State()), id, data).hub
      ensures outbox == old(outbox) + RestartStep(old(State()), id, data).sent && buffers == old(buffers)
    {
      var roomCode := sessions[id].roomCode;
      if roomCode.None? || roomCode.value !in rooms {
        return;
      }
      var code := roomCode.value;
      var players := ClearExits(rooms[code].players);
      var room := rooms[code].(players := players, started := false);
      rooms := rooms[code := room];
      Deliver(players, Some(id), data);
    }

    /**
     * handleMessage, inside the data handler's try/catch: the switch on the
     * first byte.  A message that throws (CreateRoom shorter than five bytes)
     * changes nothing.
     */
    method HandleMessage(id: Id, data: seq<Byte>)
      requires Valid() && id in sessions && |data| < 65536
      modifies this
      ensures Valid()
      ensures State() == Handle(old(State()), id, data).hub
      ensures outbox == old(outbox) + Handle(old(State()), id, data).sent && buffers == old(buffers)
    {
      HandleKeeps(State(), id, data);
      HandleSendable(State(), id, data);
      assert MazesFit(rooms) by {
        assert RoomsOk(rooms);
      }
      if |data| < 1 {
        return;
      }
      var t := data[0];
      if t == MsgConnect {
        SendMessage(id, [MsgConnectAck]);
      } else if t == MsgCreateRoom {
        CreateRoom(id, data);
      } else if t == MsgMazeData {
        MazeData(id, data);
      } else if t == MsgJoinRoom {
        JoinRoom(id, data);
      } else if Relayed(t) {
        Relay(id, data);
      } else if t == MsgReachExit {
        ReachExit(id, data);
      } else if t == MsgRestartRequest {
        Restart(id, data);
      }
    }

    /**
     * The data handler: the read joins the socket's buffer, and every
     * complete frame at its front is taken off and handled, in order; an
     * incomplete tail stays for the next read.  The buffer is held in a
     * local while the frames are taken off and stored back once at the end;
     * no handler reads it, so the effect is the same.
     */
    method OnData(id: Id, chunk: seq<Byte>)
      requires Valid() && Tracked() && id in sessions
      modifies this
      ensures Valid() && Tracked()
      ensures var all := Messages(old(buffers[id]) + chunk);
        State() == HandleAll(old(State()), id, all).hub
        && outbox == old(outbox) + HandleAll(old(State()), id, all).sent
      ensures buffers == old(buffers)[id := Remainder(old(buffers[id]) + chunk)]
    {
      var buf := buffers[id] + chunk;
      ghost var whole := buf;
      DrainStart(State(), id, whole, outbox);
      while |buf| >= 2
        invariant Valid() && id in sessions && sessions.Keys == old(sessions).Keys && buffers == old(buffers)
        invariant Drained(old(State()), id, whole, old(outbox), State(), outbox, buf)
        decreases |buf|
      {
        var len := ReadU16(buf, 0);
        if |buf| < 2 + len {
          break;
        }
        var message := buf[2..2 + len];
        DrainStep(old(State()), id, whole, old(outbox), State(), outbox, buf);
        buf := buf[2 + len..];
        HandleMessage(id, message);
      }
      DrainEnd(old(State()), id, whole, old(outbox), State(), outbox, buf);
      buffers := buffers[id := buf];
    }

    /**
     * The close handler, with the corrected promotion: the socket's entry
     * leaves its room; an empty room is deleted; otherwise the room is
     * waiting again with every flag clear, a leaving host's successor
     * becomes host (its socket too, when that socket is in this room), and
     * the others get PlayerLeft.
     */
    method Close(id: Id)
      requires Valid() && Tracked() && id in sessions
      modifies this
      ensures Valid() && Tracked()
      ensures State() == CloseStep(old(State()), id, false).hub
      ensures outbox == old(outbox) + CloseStep(old(State()), id, false).sent && buffers == old(buffers) - {id}
    {
      CloseKeeps(State(), id, false);
      CloseSendable(State(), id, false);
      var session := sessions[id];
      sessions := sessions - {id};
      buffers := buffers - {id};
      if session.roomCode.None? || session.roomCode.value !in rooms {
        return;
      }
      var code := session.roomCode.value;
      var wasHost := session.isHost;
      var players := Without(rooms[code].players, id);
      if players == [] {
        rooms := rooms - {code};
        return;
      }
      players := ClearExits(players);
      if wasHost {
        var heir := players[0].id;
        players := players[0 := players[0].(isHost := true)];
        if heir in sessions && sessions[heir].roomCode == Some(code) {
          sessions := sessions[heir := sessions[heir].(isHost := true)];
        }
      }
      rooms := rooms[code := rooms[code].(players := players, started := false)];
      Deliver(players, None, [MsgPlayerLeft]);
    }
  }

  /** Every stored maze fits a frame. */
  predicate MazesFit(rooms: map<Code, Room>) {
    forall c :: c in rooms && rooms[c].mazeData.Some? ==> |rooms[c].mazeData.value| < 65536
  }

  /** A socket with neither property set keeps the invariant. */
  lemma Opened(h: Hub, id: Id)
    requires Consistent(h) && id !in h.sessions
    ensures Consistent(h.(sessions := h.sessions[id := Session(None, false)]))
  {
  }

  /** One player of a loop over room.players: what it is sent, then what the rest are sent. */
  lemma DeliveriesStep(out: seq<Packet>, ps: seq<Player>, i: nat, except: Option<Id>, data: seq<Byte>)
    requires i < |ps|
    ensures var sent := if Some(ps[i].id) != except then [Packet(ps[i].id, data)] else [];
      out + Deliveries(ps[i..], except, data) == (out + sent) + Deliveries(ps[i + 1..], except, data)
    ensures Deliveries(ps[|ps|..], except, data) == []
  {
    assert ps[i..][0] == ps[i] && ps[i..][1..] == ps[i + 1..];
  }

  /**
   * Part way through a data handler started from `start` with `whole` in
   * the buffer and `out0` written: handling what `buf` still holds from
   * `now` finishes the job.
   */
  ghost predicate Drained(start: Hub, id: Id, whole: seq<Byte>, out0: seq<Packet>,
                          now: Hub, out: seq<Packet>, buf: seq<Byte>)
  {
    id in start.sessions && id in now.sessions
    && Remainder(buf) == Remainder(whole)
    && HandleAll(now, id, Messages(buf)).hub == HandleAll(start, id, Messages(whole)).hub
    && out + HandleAll(now, id, Messages(buf)).sent == out0 + HandleAll(start, id, Messages(whole)).sent
  }

  lemma DrainStart(h: Hub, id: Id, buf: seq<Byte>, out: seq<Packet>)
    requires id in h.sessions
    ensures Drained(h, id, buf, out, h, out, buf)
  {
  }

  /** Taking the front frame off and handling it keeps the loop on course. */
  lemma DrainStep(start: Hub, id: Id, whole: seq<Byte>, out0: seq<Packet>, now: Hub, out: seq<Packet>, buf: seq<Byte>)
    requires Drained(start, id, whole, out0, now, out, buf) && !Incomplete(buf)
    ensures var m := buf[2..2 + ReadU16(buf, 0)];
      var o := Handle(now, id, m);
      Drained(start, id, whole, out0, o.hub, out + o.sent, buf[2 + ReadU16(buf, 0)..])
  {
    var n := ReadU16(buf, 0);
    var m, rest := buf[2..2 + n], buf[2 + n..];
    TakeFrame(buf);
    var ms := Messages(rest);
    assert Messages(buf) == [m] + ms;
    HandleStep(now, id, m, ms);
    var o := Handle(now, id, m);
    var after := HandleAll(o.hub, id, ms);
    assert HandleAll(now, id, Messages(buf)) == Outcome(after.hub, o.sent + after.sent);
    assert out + o.sent + after.sent == out + (o.sent + after.sent);
  }

  /** Once no complete frame is left, everything has been handled and the tail is the remainder. */
  lemma DrainEnd(start: Hub, id: Id, whole: seq<Byte>, out0: seq<Packet>, now: Hub, out: seq<Packet>, buf: seq<Byte>)
    requires Drained(start, id, whole, out0, now, out, buf) && Incomplete(buf)
    ensures now == HandleAll(start, id, Messages(whole)).hub
    ensures out == out0 + HandleAll(start, id, Messages(whole)).sent
    ensures buf == Remainder(whole)
  {
    assert Messages(buf) == [] && Remainder(buf) == buf;
    assert out + [] == out;
  }

  /** One message in front of the rest: handling them all is handling it, then the rest. */
  lemma HandleStep(h: Hub, id: Id, m: seq<Byte>, rest: seq<seq<Byte>>)
    requires id in h.sessions
    ensures var first := Handle(h, id, m);
      HandleAll(h, id, [m] + rest).hub == HandleAll(first.hub, id, rest).hub
      && HandleAll(h, id, [m] + rest).sent == first.sent + HandleAll(first.hub, id, rest).sent
  {
    assert ([m] + rest)[0] == m && ([m] + rest)[1..] == rest;
  }
}
