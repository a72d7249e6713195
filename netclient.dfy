/**
 * The client side of the network protocol (NetworkManager): the payloads
 * it sends, the receive loop that cuts frames off its buffer, and what each
 * received message hands to the game.  The socket is a parameter (the
 * outcome of connect and of each read); what would be written to it is
 * kept in sent, and the callbacks the game registered are kept as a log
 * of events.
 */
module NetClient {
  import opened Wire

  /** A float on the wire: four bytes, never interpreted here. */
  type Float = f: seq<Byte> | |f| == 4 witness [0, 0, 0, 0]

  /** 0.0f: all four bytes zero. */
  const Zero: Float := [0, 0, 0, 0]

  datatype PlayerState = PlayerState(x: Float, y: Float, rotation: Float, turretAngle: Float, health: Float, reachedExit: bool)

  datatype NpcState = NpcState(
    id: int, x: Float, y: Float, rotation: Float, turretAngle: Float, health: Float, team: int, activated: bool)

  /** A call of one of the registered callbacks, with its arguments. */
  datatype Event =
    | Connected
    | Disconnected
    | Error(message: string)
    | RoomCreated(code: string)
    | RoomJoined(code: string)
    | GameStart
    | MazeReceived(rows: seq<string>)
    | RequestMaze
    | PlayerUpdate(state: PlayerState)
    | PlayerShoot(x: Float, y: Float, angle: Float)
    | GameResult(localWon: bool)
    | RestartRequest
    | NpcActivate(npc: int, team: int)
    | NpcUpdate(npcState: NpcState)
    | NpcShoot(npc: int, x: Float, y: Float, angle: Float)
    | NpcDamage(npc: int, damage: Float)
    | PlayerLeft

  /** What sf::TcpSocket::connect gave. */
  datatype ConnectOutcome = BadAddress | Refused | Established

  /** What one sf::TcpSocket::receive gave: some bytes, a closed peer, or nothing usable. */
  datatype ReadOutcome = Data(chunk: seq<Byte>) | PeerClosed | NothingRead

  /* ---------------------------------------------------------------- */
  /* Payloads the client builds                                        */
  /* ---------------------------------------------------------------- */

  /** createRoom: the type and the maze width and height as 16-bit fields. */
  function CreateRoomPayload(width: int, height: int): seq<Byte> {
    [MsgCreateRoom] + U16(width) + U16(height)
  }

  /** joinRoom: the type, the code length as one byte, and the code. */
  function JoinRoomPayload(code: string): seq<Byte> {
    [MsgJoinRoom, |code| % 256] + Bytes(code)
  }

  /** sendPosition: the type, five floats and the exit flag as 1 or 0. */
  function PositionPayload(s: PlayerState): seq<Byte> {
    [MsgPlayerUpdate] + s.x + s.y + s.rotation + s.turretAngle + s.health + [if s.reachedExit then 1 else 0]
  }

  /** sendGameResult: the type and 1 when the sender won, 0 otherwise. */
  function GameResultPayload(localWin: bool): seq<Byte> {
    [MsgGameResult, if localWin then 1 else 0]
  }

  /** One maze row: its length as a 16-bit field, then its characters. */
  function RowBytes(row: string): seq<Byte> {
    U16(|row|) + Bytes(row)
  }

  function RowsBytes(rows: seq<string>): seq<Byte> {
    if rows == [] then [] else RowBytes(rows[0]) + RowsBytes(rows[1..])
  }

  /** sendMazeData: the type, the row count as a 16-bit field, then every row. */
  function MazePayload(rows: seq<string>): seq<Byte> {
    [MsgMazeData] + U16(|rows|) + RowsBytes(rows)
  }

  /** Rows whose lengths a 16-bit field can hold, written in one-byte characters. */
  predicate RowsFit(rows: seq<string>) {
    rows == [] || (|rows[0]| < 65536 && Narrow(rows[0]) && RowsFit(rows[1..]))
  }

  /** A maze every 16-bit field of the encoding can hold. */
  predicate Encodable(rows: seq<string>) {
    |rows| < 65536 && RowsFit(rows)
  }

  /* ---------------------------------------------------------------- */
  /* Decoding                                                          */
  /* ---------------------------------------------------------------- */

  /** readFloat: the four bytes at offset, or 0.0f when they run past the message. */
  function ReadFloat(data: seq<Byte>, offset: nat): Float {
    if offset + 4 > |data| then Zero else data[offset..offset + 4]
  }

  /**
   * The rows of a MazeData message, read from rest (the bytes from the
   * decoder's offset on) with left rows still announced: it stops when
   * fewer than two bytes remain for a length, and skips a row whose length
   * runs past the end, stepping over the length alone.
   */
  function RowsFrom(rest: seq<Byte>, left: nat): seq<string>
    decreases left
  {
    if left == 0 || |rest| < 2 then []
    else
      var len := ReadU16(rest, 0);
      if 2 + len <= |rest| then [Text(rest[2..2 + len])] + RowsFrom(rest[2 + len..], left - 1)
      else RowsFrom(rest[2..], left - 1)
  }

  /** The rows of a MazeData message of at least three bytes. */
  function MazeRows(data: seq<Byte>): seq<string>
    requires |data| >= 3
  {
    RowsFrom(data[3..], ReadU16(data, 1))
  }

  /**
   * A room code or error text at offset 1: its length byte, then the text.
   * It is taken only when the message is longer than two bytes and holds
   * the whole text (see Findings on the missing second condition).
   */
  predicate TextFits(data: seq<Byte>) {
    |data| > 2 && 2 + data[1] <= |data|
  }

  function TextField(data: seq<Byte>): string
    requires TextFits(data)
  {
    Text(data[2..2 + data[1]])
  }

  /** RoomCreated and RoomJoined replace the room code; nothing else touches it. */
  function CodeAfter(data: seq<Byte>, code: string): string {
    if |data| > 0 && (data[0] == MsgRoomCreated || data[0] == MsgRoomJoined) && TextFits(data) then TextField(data)
    else code
  }

  /** The callbacks processMessage calls for one message, in order. */
  function Reaction(data: seq<Byte>): seq<Event> {
    if |data| == 0 then []
    else
      var t := data[0];
      if t == MsgRoomCreated then (if TextFits(data) then [RoomCreated(TextField(data))] else [])
      else if t == MsgRoomJoined then (if TextFits(data) then [RoomJoined(TextField(data))] else [])
      else if t == MsgRoomError then (if TextFits(data) then [Error(TextField(data))] else [])
      else if t == MsgGameStart then [GameStart]
      else if t == MsgMazeData then (if |data| >= 3 then [MazeReceived(MazeRows(data))] else [])
      else if t == MsgRequestMaze then [RequestMaze]
      else if t == MsgPlayerUpdate then
        (if |data| >= 22 then
           [PlayerUpdate(PlayerState(ReadFloat(data, 1), ReadFloat(data, 5), ReadFloat(data, 9),
                                     ReadFloat(data, 13), ReadFloat(data, 17), data[21] != 0))]
         else [])
      else if t == MsgPlayerShoot then
        (if |data| >= 13 then [PlayerShoot(ReadFloat(data, 1), ReadFloat(data, 5), ReadFloat(data, 9))] else [])
      else if t == MsgGameResult then (if |data| >= 2 then [GameResult(!(data[1] != 0))] else [])
      else if t == MsgRestartRequest then [RestartRequest]
      else if t == MsgNpcActivate then (if |data| >= 3 then [NpcActivate(data[1], data[2])] else [])
      else if t == MsgNpcUpdate then
        (if |data| >= 24 then
           [NpcUpdate(NpcState(data[1], ReadFloat(data, 2), ReadFloat(data, 6), ReadFloat(data, 10),
                               ReadFloat(data, 14), ReadFloat(data, 18), data[22], data[23] != 0))]
         else [])
      else if t == MsgNpcShoot then
        (if |data| >= 14 then [NpcShoot(data[1], ReadFloat(data, 2), ReadFloat(data, 6), ReadFloat(data, 10))] else [])
      else if t == MsgNpcDamage then (if |data| >= 6 then [NpcDamage(data[1], ReadFloat(data, 2))] else [])
      else if t == MsgPlayerLeft then [PlayerLeft]
      else []
  }

  /** The callbacks for a run of messages, in order. */
  function Reactions(ms: seq<seq<Byte>>): seq<Event> {
    if ms == [] then [] else Reaction(ms[0]) + Reactions(ms[1..])
  }

  /** The room code after a run of messages. */
  function CodeAfterAll(ms: seq<seq<Byte>>, code: string): string {
    if ms == [] then code else CodeAfterAll(ms[1..], CodeAfter(ms[0], code))
  }

  class NetworkManager {
    var connected: bool
    var roomCode: string
    var receiveBuffer: seq<Byte>
    /** The packets written to the socket, oldest first. */
    var sent: seq<seq<Byte>>
    /** The callbacks called, oldest first. */
    var events: seq<Event>

    constructor ()
      ensures !connected && roomCode == [] && receiveBuffer == [] && sent == [] && events == []
    {
      connected, roomCode, receiveBuffer, sent, events := false, [], [], [], [];
    }

    /** sendPacket: a framed packet when connected, nothing otherwise. */
    method SendPacket(data: seq<Byte>)
      modifies this
      ensures sent == old(sent) + (if connected then [Frame(data)] else [])
      ensures connected == old(connected) && roomCode == old(roomCode) && receiveBuffer == old(receiveBuffer)
      ensures events == old(events)
    {
      if !connected {
        return;
      }
      var packet := U16(|data|);
      packet := packet + data;
      sent := sent + [packet];
    }

    /** connect: an error for a bad address or a refused connection; otherwise a Connect packet and the connected callback. */
    method Connect(outcome: ConnectOutcome) returns (ok: bool)
      modifies this
      ensures ok <==> outcome == Established
      ensures connected == (ok || old(connected))
      ensures outcome == BadAddress ==> events == old(events) + [Error("Invalid IP address")] && sent == old(sent)
      ensures outcome == Refused ==> events == old(events) + [Error("Failed to connect to server")] && sent == old(sent)
      ensures ok ==> events == old(events) + [Connected] && sent == old(sent) + [Frame([MsgConnect])]
      ensures roomCode == old(roomCode) && receiveBuffer == old(receiveBuffer)
    {
      if outcome == BadAddress {
        events := events + [Error("Invalid IP address")];
        return false;
      }
      if outcome == Refused {
        events := events + [Error("Failed to connect to server")];
        return false;
      }
      connected := true;
      SendPacket([MsgConnect]);
      events := events + [Connected];
      return true;
    }

    /** disconnect: a Disconnect packet if still connected, then everything cleared. */
    method Disconnect()
      modifies this
      ensures sent == old(sent) + (if old(connected) then [Frame([MsgDisconnect])] else [])
      ensures !connected && roomCode == [] && receiveBuffer == []
      ensures events == old(events) + [Disconnected]
    {
      if connected {
        SendPacket([MsgDisconnect]);
      }
      connected := false;
      roomCode := [];
      receiveBuffer := [];
      events := events + [Disconnected];
    }

    method CreateRoom(mazeWidth: int, mazeHeight: int)
      modifies this
      ensures sent == old(sent) + (if connected then [Frame(CreateRoomPayload(mazeWidth, mazeHeight))] else [])
      ensures connected == old(connected) && roomCode == old(roomCode) && receiveBuffer == old(receiveBuffer)
      ensures events == old(events)
    {
      if !connected {
        return;
      }
      var data := [MsgCreateRoom];
      data := data + [mazeWidth % 256] + [(mazeWidth / 256) % 256];
      data := data + [mazeHeight % 256] + [(mazeHeight / 256) % 256];
      assert data == CreateRoomPayload(mazeWidth, mazeHeight);
      SendPacket(data);
    }

    method JoinRoom(code: string)
      modifies this
      ensures sent == old(sent) + (if connected then [Frame(JoinRoomPayload(code))] else [])
      ensures connected == old(connected) && roomCode == old(roomCode) && receiveBuffer == old(receiveBuffer)
      ensures events == old(events)
    {
      if !connected {
        return;
      }
      var data := [MsgJoinRoom, |code| % 256];
      data := AppendText(data, code);
      SendPacket(data);
    }

    method SendPosition(state: PlayerState)
      modifies this
      ensures sent == old(sent) + (if connected then [Frame(PositionPayload(state))] else [])
      ensures connected == old(connected) && roomCode == old(roomCode) && receiveBuffer == old(receiveBuffer)
      ensures events == old(events)
    {
      if !connected {
        return;
      }
      var data := [MsgPlayerUpdate];
      data := data + state.x + state.y + state.rotation + state.turretAngle + state.health;
      data := data + [if state.reachedExit then 1 else 0];
      SendPacket(data);
    }

    method SendGameResult(localWin: bool)
      modifies this
      ensures sent == old(sent) + (if connected then [Frame(GameResultPayload(localWin))] else [])
      ensures connected == old(connected) && roomCode == old(roomCode) && receiveBuffer == old(receiveBuffer)
      ensures events == old(events)
    {
      if !connected {
        return;
      }
      SendPacket([MsgGameResult, if localWin then 1 else 0]);
    }

    /** sendMazeData: the row count, then each row's length and characters, pushed one by one. */
    method SendMazeData(rows: seq<string>)
      modifies this
      ensures sent == old(sent) + (if connected then [Frame(MazePayload(rows))] else [])
      ensures connected == old(connected) && roomCode == old(roomCode) && receiveBuffer == old(receiveBuffer)
      ensures events == old(events)
    {
      if !connected {
        return;
      }
      var data := [MsgMazeData] + U16(|rows|);
      for k := 0 to |rows|
        invariant data == [MsgMazeData] + U16(|rows|) + RowsBytes(rows[..k])
        invariant connected && sent == old(sent) && events == old(events)
        invariant roomCode == old(roomCode) && receiveBuffer == old(receiveBuffer)
      {
        var row := rows[k];
        var before := data;
        data := data + U16(|row|);
        data := AppendText(data, row);
        RowsBytesSnoc(rows, k);
        assert data == before + RowBytes(row);
      }
      assert rows[..|rows|] == rows;
      SendPacket(data);
    }

    /**
     * receiveData: a read is appended to the buffer and every complete
     * frame is taken off its front and processed, in order; a closed peer
     * disconnects.
     */
    method ReceiveData(read: ReadOutcome)
      modifies this
      ensures read.Data? && |read.chunk| > 0 ==>
        var all := old(receiveBuffer) + read.chunk;
        receiveBuffer == Remainder(all) &&
        events == old(events) + Reactions(Messages(all)) &&
        roomCode == CodeAfterAll(Messages(all), old(roomCode)) &&
        connected == old(connected)
      ensures read.PeerClosed? ==>
        !connected && events == old(events) + [Disconnected] &&
        receiveBuffer == old(receiveBuffer) && roomCode == old(roomCode)
      ensures (read.NothingRead? || (read.Data? && |read.chunk| == 0)) ==>
        events == old(events) && receiveBuffer == old(receiveBuffer) && roomCode == old(roomCode) &&
        connected == old(connected)
      ensures sent == old(sent)
    {
      match read
      case PeerClosed =>
        connected := false;
        events := events + [Disconnected];
      case NothingRead =>
      case Data(chunk) =>
        if |chunk| > 0 {
          receiveBuffer := receiveBuffer + chunk;
          DrainFrames();
        }
    }

    /** The while loop of receiveData: complete frames come off the front and are processed, in order. */
    method DrainFrames()
      modifies this
      ensures receiveBuffer == Remainder(old(receiveBuffer))
      ensures events == old(events) + Reactions(Messages(old(receiveBuffer)))
      ensures roomCode == CodeAfterAll(Messages(old(receiveBuffer)), old(roomCode))
      ensures connected == old(connected) && sent == old(sent)
    {
      ghost var all := receiveBuffer;
      ghost var done: seq<seq<Byte>> := [];
      while |receiveBuffer| >= 2
        invariant ReceiveProgress(all, done, old(events), old(roomCode))
        invariant connected == old(connected) && sent == old(sent)
        decreases |receiveBuffer|
      {
        var len := receiveBuffer[0] as int + 256 * (receiveBuffer[1] as int);
        if |receiveBuffer| >= 2 + len {
          done := NextFrame(all, done, old(events), old(roomCode));
        } else {
          break;
        }
      }
      assert Incomplete(receiveBuffer) && Messages(receiveBuffer) == [];
      assert Messages(all) == done;
    }

    /** The frames of all taken so far are done, processed in order; the rest are still in the buffer. */
    ghost predicate ReceiveProgress(all: seq<Byte>, done: seq<seq<Byte>>, events0: seq<Event>, code0: string)
      reads this
    {
      DrainedSoFar(all, done, receiveBuffer, events0, events, code0, roomCode)
    }

    /** One pass of the loop: the first frame is erased from the buffer and processed. */
    method NextFrame(ghost all: seq<Byte>, ghost done: seq<seq<Byte>>, ghost events0: seq<Event>, ghost code0: string)
      returns (ghost done': seq<seq<Byte>>)
      requires ReceiveProgress(all, done, events0, code0) && !Incomplete(receiveBuffer)
      modifies this
      ensures ReceiveProgress(all, done', events0, code0) && |receiveBuffer| < |old(receiveBuffer)|
      ensures connected == old(connected) && sent == old(sent)
    {
      var len := receiveBuffer[0] as int + 256 * (receiveBuffer[1] as int);
      var message := receiveBuffer[2..2 + len];
      DrainStep(all, done, receiveBuffer, events0, events, code0, roomCode);
      receiveBuffer := receiveBuffer[2 + len..];
      ProcessMessage(message);
      done' := done + [message];
    }

    /** processMessage: the callback the message names, and the room code for RoomCreated and RoomJoined. */
    method ProcessMessage(data: seq<Byte>)
      modifies this
      ensures events == old(events) + Reaction(data)
      ensures roomCode == CodeAfter(data, old(roomCode))
      ensures connected == old(connected) && receiveBuffer == old(receiveBuffer) && sent == old(sent)
    {
      if |data| == 0 {
        return;
      }
      var t := data[0];
      if t == MsgRoomCreated || t == MsgRoomJoined || t == MsgRoomError {
        if |data| > 2 && 2 + data[1] <= |data| {
          var text := Text(data[2..2 + data[1]]);
          if t == MsgRoomCreated {
            roomCode := text;
            events := events + [RoomCreated(roomCode)];
          } else if t == MsgRoomJoined {
            roomCode := text;
            events := events + [RoomJoined(roomCode)];
          } else {
            events := events + [Error(text)];
          }
        }
      } else if t == MsgGameStart {
        events := events + [GameStart];
      } else if t == MsgMazeData {
        if |data| >= 3 {
          var rows := DecodeMaze(data);
          events := events + [MazeReceived(rows)];
        }
      } else if t == MsgRequestMaze {
        events := events + [RequestMaze];
      } else if t == MsgPlayerUpdate {
        if |data| >= 22 {
          var state := PlayerState(ReadFloat(data, 1), ReadFloat(data, 5), ReadFloat(data, 9),
                                   ReadFloat(data, 13), ReadFloat(data, 17), data[21] != 0);
          events := events + [PlayerUpdate(state)];
        }
      } else if t == MsgPlayerShoot {
        if |data| >= 13 {
          events := events + [PlayerShoot(ReadFloat(data, 1), ReadFloat(data, 5), ReadFloat(data, 9))];
        }
      } else if t == MsgGameResult {
        if |data| >= 2 {
          var otherPlayerWon := data[1] != 0;
          events := events + [GameResult(!otherPlayerWon)];
        }
      } else if t == MsgRestartRequest {
        events := events + [RestartRequest];
      } else if t == MsgNpcActivate {
        if |data| >= 3 {
          events := events + [NpcActivate(data[1], data[2])];
        }
      } else if t == MsgNpcUpdate {
        if |data| >= 24 {
          var state := NpcState(data[1], ReadFloat(data, 2), ReadFloat(data, 6), ReadFloat(data, 10),
                                ReadFloat(data, 14), ReadFloat(data, 18), data[22], data[23] != 0);
          events := events + [NpcUpdate(state)];
        }
      } else if t == MsgNpcShoot {
        if |data| >= 14 {
          events := events + [NpcShoot(data[1], ReadFloat(data, 2), ReadFloat(data, 6), ReadFloat(data, 10))];
        }
      } else if t == MsgNpcDamage {
        if |data| >= 6 {
          events := events + [NpcDamage(data[1], ReadFloat(data, 2))];
        }
      } else if t == MsgPlayerLeft {
        events := events + [PlayerLeft];
      }
    }
  }

  /** Appending a text byte by byte (the push_back loops over a string). */
  method AppendText(data: seq<Byte>, s: string) returns (out: seq<Byte>)
    ensures out == data + Bytes(s)
  {
    out := data;
    for j := 0 to |s|
      invariant out == data + Bytes(s[..j])
    {
      assert Bytes(s[..j + 1]) == Bytes(s[..j]) + [(s[j] as int) % 256];
      out := out + [(s[j] as int) % 256];
    }
    assert s[..|s|] == s;
  }

  /**
   * The MazeData decoder: the row count, then a loop that reads each row's
   * length and the row while at least two bytes remain.
   */
  method DecodeMaze(data: seq<Byte>) returns (rows: seq<string>)
    requires |data| >= 3
    ensures rows == MazeRows(data)
  {
    var offset := 1;
    var count := data[offset] as int + 256 * (data[offset + 1] as int);
    offset := offset + 2;
    rows := [];
    var i := 0;
    assert [] + RowsFrom(data[offset..], count) == MazeRows(data);
    while i < count && offset + 2 <= |data|
      invariant 3 <= offset <= |data| && 0 <= i <= count
      invariant rows + RowsFrom(data[offset..], count - i) == MazeRows(data)
      decreases count - i
    {
      var got, next;
      got, next := DecodeRow(data, offset, count - i);
      assert rows + (got + RowsFrom(data[next..], count - i - 1)) == (rows + got) + RowsFrom(data[next..], count - i - 1);
      rows := rows + got;
      offset := next;
      i := i + 1;
    }
    assert RowsFrom(data[offset..], count - i) == [];
    assert rows + [] == rows;
  }

  /** One turn of the decoder loop: a length, then the row if it is all there. */
  method DecodeRow(data: seq<Byte>, offset: nat, left: nat) returns (got: seq<string>, next: nat)
    requires offset + 2 <= |data| && left > 0
    ensures offset < next <= |data| && |got| <= 1
    ensures RowsFrom(data[offset..], left) == got + RowsFrom(data[next..], left - 1)
  {
    var len := data[offset] as int + 256 * (data[offset + 1] as int);
    RowsFromStep(data, offset, left);
    next := offset + 2;
    got := [];
    if next + len <= |data| {
      got := [Text(data[next..next + len])];
      next := next + len;
    }
  }

  /** One turn of the decoder loop, stated on offsets into the whole message. */
  lemma RowsFromStep(data: seq<Byte>, offset: nat, left: nat)
    requires offset + 2 <= |data| && left > 0
    ensures var len := ReadU16(data, offset);
      RowsFrom(data[offset..], left)
      == if offset + 2 + len <= |data|
         then [Text(data[offset + 2..offset + 2 + len])] + RowsFrom(data[offset + 2 + len..], left - 1)
         else RowsFrom(data[offset + 2..], left - 1)
  {
    var rest := data[offset..];
    var len := ReadU16(data, offset);
    assert ReadU16(rest, 0) == len;
    if offset + 2 + len <= |data| {
      assert rest[2..2 + len] == data[offset + 2..offset + 2 + len];
      assert rest[2 + len..] == data[offset + 2 + len..];
    } else {
      assert rest[2..] == data[offset + 2..];
    }
  }

  /* ---------------------------------------------------------------- */
  /* Properties                                                        */
  /* ---------------------------------------------------------------- */

  lemma {:induction false} RowsBytesSnoc(rows: seq<string>, k: nat)
    requires k < |rows|
    ensures RowsBytes(rows[..k + 1]) == RowsBytes(rows[..k]) + RowBytes(rows[k])
    decreases k
  {
    if k == 0 {
      assert rows[..1][1..] == [];
    } else {
      var tail := rows[1..];
      RowsBytesSnoc(tail, k - 1);
      assert rows[..k + 1][1..] == tail[..k];
      assert rows[..k][1..] == tail[..k - 1];
      assert rows[..k + 1][0] == rows[0] && rows[..k][0] == rows[0];
    }
  }

  lemma {:induction false} ReactionsSnoc(ms: seq<seq<Byte>>, m: seq<Byte>)
    ensures Reactions(ms + [m]) == Reactions(ms) + Reaction(m)
    decreases |ms|
  {
    if ms == [] {
      assert [m][1..] == [];
    } else {
      assert (ms + [m])[1..] == ms[1..] + [m];
      ReactionsSnoc(ms[1..], m);
    }
  }

  /** The loop invariant of receiveData over the values it relates. */
  ghost predicate DrainedSoFar(all: seq<Byte>, done: seq<seq<Byte>>, buf: seq<Byte>,
                               events0: seq<Event>, events: seq<Event>, code0: string, code: string)
  {
    Messages(all) == done + Messages(buf) &&
    Remainder(all) == Remainder(buf) &&
    events == events0 + Reactions(done) &&
    CodeAfterAll(Messages(all), code0) == CodeAfterAll(Messages(buf), code)
  }

  /** Taking the first frame off and processing it keeps the loop invariant. */
  lemma DrainStep(all: seq<Byte>, done: seq<seq<Byte>>, buf: seq<Byte>,
                  events0: seq<Event>, events: seq<Event>, code0: string, code: string)
    requires DrainedSoFar(all, done, buf, events0, events, code0, code) && !Incomplete(buf)
    ensures DrainedSoFar(all, done + [buf[2..2 + ReadU16(buf, 0)]], buf[2 + ReadU16(buf, 0)..], events0,
                         events + Reaction(buf[2..2 + ReadU16(buf, 0)]), code0, CodeAfter(buf[2..2 + ReadU16(buf, 0)], code))
  {
    var n := ReadU16(buf, 0);
    var m, rest := buf[2..2 + n], buf[2 + n..];
    TakeFrame(buf);
    DoneStep(all, done, buf, m, rest);
    EventsStep(events0, events, done, m);
    CodeStep(all, buf, rest, m, code0, code);
  }

  lemma EventsStep(events0: seq<Event>, events: seq<Event>, done: seq<seq<Byte>>, m: seq<Byte>)
    requires events == events0 + Reactions(done)
    ensures events + Reaction(m) == events0 + Reactions(done + [m])
  {
    ReactionsSnoc(done, m);
  }

  lemma CodeStep(all: seq<Byte>, buf: seq<Byte>, rest: seq<Byte>, m: seq<Byte>, code0: string, code: string)
    requires CodeAfterAll(Messages(all), code0) == CodeAfterAll(Messages(buf), code)
    requires Messages(buf) == [m] + Messages(rest)
    ensures CodeAfterAll(Messages(all), code0) == CodeAfterAll(Messages(rest), CodeAfter(m, code))
  {
    CodeAfterAllCons(m, Messages(rest), code);
  }

  lemma DoneStep(all: seq<Byte>, done: seq<seq<Byte>>, buf: seq<Byte>, m: seq<Byte>, rest: seq<Byte>)
    requires Messages(all) == done + Messages(buf) && Messages(buf) == [m] + Messages(rest)
    ensures Messages(all) == (done + [m]) + Messages(rest)
  {
  }

  lemma CodeAfterAllCons(m: seq<Byte>, ms: seq<seq<Byte>>, code: string)
    ensures CodeAfterAll([m] + ms, code) == CodeAfterAll(ms, CodeAfter(m, code))
  {
    assert ([m] + ms)[0] == m && ([m] + ms)[1..] == ms;
  }


  /* ---------------------------------------------------------------- */
  /* Decoding what the other side encodes                              */
  /* ---------------------------------------------------------------- */

  /** Encoded rows, whatever follows them, decode back to themselves. */
  lemma {:induction false} DecodeEncoded(rows: seq<string>, post: seq<Byte>)
    requires RowsFit(rows)
    ensures RowsFrom(RowsBytes(rows) + post, |rows|) == rows
    decreases |rows|
  {
    if rows != [] {
      var r, more := rows[0], rows[1..];
      var rest := RowsBytes(more) + post;
      var data := RowsBytes(rows) + post;
      assert data == RowBytes(r) + rest;
      FirstRow(r, rest);
      DecodeEncoded(more, post);
      assert RowsFrom(data, |rows|) == [r] + RowsFrom(rest, |more|);
      assert rows == [r] + more;
    }
  }

  /** The first row: its length reads back, its characters are the row, and what follows is the rest. */
  lemma {:induction false} FirstRow(r: string, rest: seq<Byte>)
    requires |r| < 65536 && Narrow(r)
    ensures var data := RowBytes(r) + rest;
      2 + |r| <= |data| && ReadU16(data, 0) == |r| && Text(data[2..2 + |r|]) == r && data[2 + |r|..] == rest
  {
    var data := RowBytes(r) + rest;
    assert data[0] == U16(|r|)[0] && data[1] == U16(|r|)[1];
    U16RoundTrip(|r|);
    assert data[2..2 + |r|] == Bytes(r);
    TextRoundTrip(Bytes(r), r);
  }

  /** sendMazeData followed by the MazeData decoder gives back the maze. */
  lemma MazeRoundTrip(rows: seq<string>)
    requires Encodable(rows)
    ensures |MazePayload(rows)| >= 3 && MazeRows(MazePayload(rows)) == rows
    ensures Reaction(MazePayload(rows)) == [MazeReceived(rows)]
  {
    var data := MazePayload(rows);
    assert data[1] == U16(|rows|)[0] && data[2] == U16(|rows|)[1];
    U16RoundTrip(|rows|);
    assert data[3..] == RowsBytes(rows) + [];
    DecodeEncoded(rows, []);
  }

  /** Two length bytes and the characters of each row. */
  function Footprint(rows: seq<string>): nat {
    if rows == [] then 0 else 2 + |rows[0]| + Footprint(rows[1..])
  }

  /**
   * The decoder never takes more rows than announced, and the rows it
   * gives, with their lengths, fit in the bytes it reads them from: it
   * reads nothing past the end of the message.
   */
  lemma {:induction false} DecoderInBounds(rest: seq<Byte>, left: nat)
    ensures |RowsFrom(rest, left)| <= left
    ensures Footprint(RowsFrom(rest, left)) <= |rest|
    decreases left
  {
    if left > 0 && |rest| >= 2 {
      var len := ReadU16(rest, 0);
      if 2 + len <= |rest| {
        var row := Text(rest[2..2 + len]);
        DecoderInBounds(rest[2 + len..], left - 1);
        var more := RowsFrom(rest[2 + len..], left - 1);
        assert RowsFrom(rest, left) == [row] + more;
        assert ([row] + more)[1..] == more;
      } else {
        DecoderInBounds(rest[2..], left - 1);
      }
    }
  }

  /** The minimum sizes processMessage demands before it reads a message's fields. */
  const MinSize: map<Byte, nat> :=
    map[MsgPlayerUpdate := 22, MsgPlayerShoot := 13, MsgGameResult := 2, MsgNpcActivate := 3,
        MsgNpcUpdate := 24, MsgNpcShoot := 14, MsgNpcDamage := 6]

  /** A message of one of these types is ignored exactly when it is shorter than its minimum. */
  lemma SizeGuards(data: seq<Byte>)
    requires |data| > 0 && data[0] in MinSize
    ensures Reaction(data) == [] <==> |data| < MinSize[data[0]]
    ensures |data| >= MinSize[data[0]] ==> |Reaction(data)| == 1
  {
  }

  /**
   * Past a size guard every float is read whole: readFloat's fallback to
   * 0.0f is never taken for a message that gets through.
   */
  lemma GuardedFloats(data: seq<Byte>)
    requires |data| > 0
    ensures data[0] == MsgPlayerUpdate && |data| >= 22 ==>
      var s := Reaction(data)[0].state;
      s.x == data[1..5] && s.y == data[5..9] && s.rotation == data[9..13] &&
      s.turretAngle == data[13..17] && s.health == data[17..21]
    ensures data[0] == MsgPlayerShoot && |data| >= 13 ==>
      var e := Reaction(data)[0];
      e.x == data[1..5] && e.y == data[5..9] && e.angle == data[9..13]
    ensures data[0] == MsgNpcUpdate && |data| >= 24 ==>
      var s := Reaction(data)[0].npcState;
      s.x == data[2..6] && s.y == data[6..10] && s.rotation == data[10..14] &&
      s.turretAngle == data[14..18] && s.health == data[18..22]
    ensures data[0] == MsgNpcShoot && |data| >= 14 ==>
      var e := Reaction(data)[0];
      e.x == data[2..6] && e.y == data[6..10] && e.angle == data[10..14]
    ensures data[0] == MsgNpcDamage && |data| >= 6 ==> Reaction(data)[0].damage == data[2..6]
  {
  }

  /** The state sendPosition sends is the state the peer's callback receives. */
  lemma PositionRoundTrip(s: PlayerState)
    ensures Reaction(PositionPayload(s)) == [PlayerUpdate(s)]
  {
    var d := PositionPayload(s);
    assert |d| == 22;
    assert d[1..5] == s.x && d[5..9] == s.y && d[9..13] == s.rotation;
    assert d[13..17] == s.turretAngle && d[17..21] == s.health;
    assert d[21] == if s.reachedExit then 1 else 0;
  }

  /** The peer learns the opposite of what the sender reported: its win is the receiver's loss. */
  lemma GameResultNegated(localWin: bool)
    ensures Reaction(GameResultPayload(localWin)) == [GameResult(!localWin)]
  {
  }

  /** A room reply with a non-empty code of fewer than 256 bytes sets the room code and calls back with it. */
  lemma RoomReplyDecoded(text: seq<Byte>, code: string)
    requires 0 < |text| < 256
    ensures Reaction(RoomReply(MsgRoomCreated, text)) == [RoomCreated(Text(text))]
    ensures Reaction(RoomReply(MsgRoomJoined, text)) == [RoomJoined(Text(text))]
    ensures Reaction(RoomReply(MsgRoomError, text)) == [Error(Text(text))]
    ensures CodeAfter(RoomReply(MsgRoomCreated, text), code) == Text(text)
    ensures CodeAfter(RoomReply(MsgRoomJoined, text), code) == Text(text)
    ensures CodeAfter(RoomReply(MsgRoomError, text), code) == code
  {
    RoomReplyLayout(MsgRoomCreated, text);
    RoomReplyLayout(MsgRoomJoined, text);
    RoomReplyLayout(MsgRoomError, text);
  }

  /** A room reply carries its type, then the text's length, then the text itself. */
  lemma RoomReplyLayout(t: Byte, text: seq<Byte>)
    requires |text| < 256
    ensures var d := RoomReply(t, text); |d| == 2 + |text| && d[0] == t && d[1] == |text| && d[2..2 + |text|] == text
  {
    var d := RoomReply(t, text);
    assert d[2..] == text;
  }

  /** As written, RoomCreated, RoomJoined and RoomError check only that the message is longer than two bytes. */
  predicate TextGuardAsWritten(data: seq<Byte>) {
    |data| > 2
  }

  /**
   * A three-byte RoomCreated that announces a four-byte code passes that
   * check, and the code it would copy ends three bytes past the message.
   */
  lemma TextOverrunAsWritten()
    ensures var data: seq<Byte> := [MsgRoomCreated, 4, 49];
      TextGuardAsWritten(data) && 2 + data[1] > |data| && !TextFits(data)
  {
  }

  /** With the length checked too, a reply cut short is ignored and the room code is kept. */
  lemma ShortReplyIgnored(data: seq<Byte>, code: string)
    requires TextGuardAsWritten(data) && 2 + data[1] > |data|
    requires data[0] == MsgRoomCreated || data[0] == MsgRoomJoined || data[0] == MsgRoomError
    ensures Reaction(data) == [] && CodeAfter(data, code) == code
  {
  }

  lemma {:induction false} ReactionsAppend(a: seq<seq<Byte>>, b: seq<seq<Byte>>)
    ensures Reactions(a + b) == Reactions(a) + Reactions(b)
    decreases |a|
  {
    if a == [] {
      assert a + b == b;
    } else {
      assert (a + b)[0] == a[0] && (a + b)[1..] == a[1..] + b;
      ReactionsAppend(a[1..], b);
    }
  }

  /**
   * Two reads processed one after the other call the same callbacks, in
   * the same order, and leave the same buffer as one read of both.
   */
  lemma TwoReadsAsOne(buf: seq<Byte>, c1: seq<Byte>, c2: seq<Byte>)
    ensures Reactions(Messages(buf + c1)) + Reactions(Messages(Remainder(buf + c1) + c2))
            == Reactions(Messages(buf + c1 + c2))
    ensures Remainder(Remainder(buf + c1) + c2) == Remainder(buf + c1 + c2)
  {
    SplitAppend(buf + c1, c2);
    var a, b := Messages(buf + c1), Messages(Remainder(buf + c1) + c2);
    assert Messages(buf + c1 + c2) == a + b;
    ReactionsAppend(a, b);
  }
}
