/**
 * The relay server: rooms of at most two players, keyed by a four-digit
 * code, with one host each.  The server pairs a host with a guest, hands
 * the host's maze to the guest, starts the game and afterwards relays
 * gameplay messages between the two.
 *
 * Sockets are numbered (`Id`); the two properties the server sets on a
 * socket object (roomCode, isHost) form its `Session`.  Every write to a
 * socket is a `Packet` in the order it was made.  Math.random is a stream
 * of draws.
 *
 * The transitions are first given as functions on the whole state (`Hub`),
 * where the invariant is proved; the `Server` class of module Relay performs
 * them in place, field by field, and is proved to agree with them.
 */
module RoomServer {
  import opened Wrappers
  import opened Wire
  import NetClient

  /** A connected socket, told apart by identity only. */
  type Id = nat

  /** A room code: the bytes of its text. */
  type Code = seq<Byte>

  /** What generateRoomCode can give: Math.floor(1000 + Math.random() * 9000). */
  type Draw = n: int | 1000 <= n <= 9999 witness 1000

  /** An entry of room.players. */
  datatype Player = Player(id: Id, reachedExit: bool, isHost: bool)

  /** A room object. */
  datatype Room = Room(width: int, height: int, mazeData: Option<seq<Byte>>, players: seq<Player>, started: bool)

  /** socket.roomCode (None while unset) and socket.isHost (false while unset). */
  datatype Session = Session(roomCode: Option<Code>, isHost: bool)

  /** One sendMessage: the socket written to and the payload framed on it. */
  datatype Packet = Packet(to: Id, payload: seq<Byte>)

  /** The rooms map, the sockets that are open, and the draws still to come. */
  datatype Hub = Hub(rooms: map<Code, Room>, sessions: map<Id, Session>, draws: seq<Draw>)

  /** The state after one event and what was written meanwhile. */
  datatype Outcome = Outcome(hub: Hub, sent: seq<Packet>)

  const NotFound: seq<Byte> := Bytes("Room not found")
  const Full: seq<Byte> := Bytes("Room is full")

  /* ---------------------------------------------------------------- */
  /* Room codes                                                        */
  /* ---------------------------------------------------------------- */

  /** A draw written out in decimal (Number.toString), one byte per digit. */
  function Digits(n: Draw): (code: Code)
    ensures |code| == 4
  {
    var hundreds := n % 1000;
    var tens := hundreds % 100;
    [48 + n / 1000, 48 + hundreds / 100, 48 + tens / 10, 48 + tens % 10]
  }

  predicate IsDigit(b: Byte) {
    48 <= b <= 57
  }

  /** The number four decimal digits spell. */
  function DecimalValue(code: Code): int
    requires |code| == 4
  {
    1000 * (code[0] as int - 48) + 100 * (code[1] as int - 48) + 10 * (code[2] as int - 48) + (code[3] as int - 48)
  }

  /** A code is four decimal digits and spells the draw it came from, so distinct draws give distinct codes. */
  lemma DigitsRoundTrip(n: Draw)
    ensures forall k :: 0 <= k < 4 ==> IsDigit(Digits(n)[k])
    ensures DecimalValue(Digits(n)) == n
    ensures Digits(n)[0] != 48
  {
    var a, r := n / 1000, n % 1000;
    var b, r2 := r / 100, r % 100;
    assert n == 1000 * a + r && r == 100 * b + r2 && r2 == 10 * (r2 / 10) + r2 % 10;
  }

  /**
   * The do/while loop of CreateRoom: the first draw whose code is not a
   * room yet, and the draws after it; None when the stream runs out first.
   */
  function FreshCode(rooms: map<Code, Room>, draws: seq<Draw>): (r: Option<(Code, seq<Draw>)>)
    ensures r.Some? ==> (r.value.0 !in rooms
      && exists k :: 0 <= k < |draws| && r.value.0 == Digits(draws[k]) && r.value.1 == draws[k + 1..]
                  && forall j :: 0 <= j < k ==> Digits(draws[j]) in rooms)
    ensures r.None? ==> forall j :: 0 <= j < |draws| ==> Digits(draws[j]) in rooms
    decreases |draws|
  {
    if draws == [] then None
    else if Digits(draws[0]) !in rooms then Some((Digits(draws[0]), draws[1..]))
    else
      var r := FreshCode(rooms, draws[1..]);
      if r.Some? then
        ghost var k :| 0 <= k < |draws[1..]| && r.value.0 == Digits(draws[1..][k]) && r.value.1 == draws[1..][k + 1..]
                     && forall j :: 0 <= j < k ==> Digits(draws[1..][j]) in rooms;
        assert draws[1..][k + 1..] == draws[k + 2..];
        assert forall j :: 0 <= j < k + 1 ==> Digits(draws[j]) in rooms by {
          forall j | 0 <= j < k + 1 ensures Digits(draws[j]) in rooms {
            if j > 0 {
              assert draws[j] == draws[1..][j - 1];
            }
          }
        }
        r
      else
        assert forall j :: 0 <= j < |draws| ==> Digits(draws[j]) in rooms by {
          forall j | 0 <= j < |draws| ensures Digits(draws[j]) in rooms {
            if j > 0 {
              assert draws[j] == draws[1..][j - 1];
            }
          }
        }
        r
  }

  /**
   * The code of a JoinRoom: data.slice(2, 2 + data[1]), which stops at the
   * end of the message (and is empty when data[1] is missing).
   */
  function JoinCode(data: seq<Byte>): (code: Code)
    ensures |code| < 256
    ensures |data| >= 2 ==> |code| == (if 2 + data[1] <= |data| then data[1] else |data| - 2) && code == data[2..2 + |code|]
    ensures |data| < 2 ==> code == []
  {
    if |data| < 3 then []
    else if 2 + data[1] <= |data| then data[2..2 + data[1]]
    else data[2..]
  }

  /* ---------------------------------------------------------------- */
  /* Players                                                           */
  /* ---------------------------------------------------------------- */

  /** room.players.find(p => p.isHost == host): the first entry with that role. */
  function FindRole(ps: seq<Player>, host: bool): (r: Option<nat>)
    ensures r.Some? ==> (r.value < |ps| && ps[r.value].isHost == host
      && forall j :: 0 <= j < r.value ==> ps[j].isHost != host)
    ensures r.None? ==> forall j :: 0 <= j < |ps| ==> ps[j].isHost != host
  {
    if ps == [] then None
    else if ps[0].isHost == host then Some(0)
    else
      var r := FindRole(ps[1..], host);
      assert forall j :: 1 <= j < |ps| ==> ps[j] == ps[1..][j - 1];
      if r.None? then None else Some(r.value + 1)
  }

  /** room.players.find(p => p.socket === socket): the first entry of a socket. */
  function FindId(ps: seq<Player>, id: Id): (r: Option<nat>)
    ensures r.Some? ==> (r.value < |ps| && ps[r.value].id == id
      && forall j :: 0 <= j < r.value ==> ps[j].id != id)
    ensures r.None? ==> forall j :: 0 <= j < |ps| ==> ps[j].id != id
  {
    if ps == [] then None
    else if ps[0].id == id then Some(0)
    else
      var r := FindId(ps[1..], id);
      assert forall j :: 1 <= j < |ps| ==> ps[j] == ps[1..][j - 1];
      if r.None? then None else Some(r.value + 1)
  }

  /** room.players.filter(p => p.socket !== socket): the other sockets' entries, in order. */
  function Without(ps: seq<Player>, id: Id): (qs: seq<Player>)
    ensures |qs| <= |ps|
    ensures forall p :: p in qs <==> p in ps && p.id != id
  {
    if ps == [] then []
    else if ps[0].id == id then Without(ps[1..], id)
    else [ps[0]] + Without(ps[1..], id)
  }

  /** Every reachedExit flag cleared, nothing else changed. */
  function Cleared(ps: seq<Player>): (qs: seq<Player>) {
    seq(|ps|, k requires 0 <= k < |ps| => ps[k].(reachedExit := false))
  }

  /** room.players.every(p => p.reachedExit) */
  predicate AllReached(ps: seq<Player>) {
    forall k :: 0 <= k < |ps| ==> ps[k].reachedExit
  }

  /* ---------------------------------------------------------------- */
  /* Sending                                                           */
  /* ---------------------------------------------------------------- */

  /**
   * A loop sending data to the players of a room: broadcastToRoom skips the
   * sender (`except`), the GameStart, GameWin and PlayerLeft loops skip nobody.
   */
  function Deliveries(ps: seq<Player>, except: Option<Id>, data: seq<Byte>): (out: seq<Packet>)
    ensures |out| <= |ps|
    ensures forall p :: p in out ==> p.payload == data && Some(p.to) != except
  {
    if ps == [] then []
    else (if Some(ps[0].id) != except then [Packet(ps[0].id, data)] else []) + Deliveries(ps[1..], except, data)
  }

  /** The bytes written to one socket: the frame of each payload sent to it, in order. */
  function Written(out: seq<Packet>, to: Id): seq<Byte> {
    if out == [] then [] else (if out[0].to == to then Frame(out[0].payload) else []) + Written(out[1..], to)
  }

  /** The payloads sent to one socket, in order. */
  function PayloadsTo(out: seq<Packet>, to: Id): seq<seq<Byte>> {
    if out == [] then [] else (if out[0].to == to then [out[0].payload] else []) + PayloadsTo(out[1..], to)
  }

  /** Every payload fits the 16-bit length that sendMessage writes (writeUInt16LE throws above it). */
  predicate Sendable(out: seq<Packet>) {
    forall k :: 0 <= k < |out| ==> |out[k].payload| < 65536
  }

  /* ---------------------------------------------------------------- */
  /* handleMessage                                                     */
  /* ---------------------------------------------------------------- */

  /** The room of a socket: its roomCode when set and still a room (`if (!roomCode) break; if (!room) break;`). */
  function RoomOf(h: Hub, id: Id): (c: Option<Code>)
    requires id in h.sessions
    ensures c.Some? ==> c.value in h.rooms && h.sessions[id].roomCode == c
    ensures c.None? ==> h.sessions[id].roomCode.None? || h.sessions[id].roomCode.value !in h.rooms
  {
    var s := h.sessions[id];
    if s.roomCode.Some? && s.roomCode.value in h.rooms then s.roomCode else None
  }

  /** Every room stays, with the maze it stored. */
  predicate MazesKept(a: map<Code, Room>, b: map<Code, Room>) {
    forall c :: c in a ==> c in b && b[c].mazeData == a[c].mazeData
  }

  /** The messages relayed as they are, and only once the game has started. */
  predicate Relayed(t: Byte) {
    t == MsgPlayerUpdate || t == MsgPlayerShoot || t == MsgGameResult
    || t == MsgNpcActivate || t == MsgNpcUpdate || t == MsgNpcShoot || t == MsgNpcDamage
  }

  /** One message from one socket. */
  function Handle(h: Hub, id: Id, data: seq<Byte>): (o: Outcome)
    requires id in h.sessions
    ensures o.hub.sessions.Keys == h.sessions.Keys
  {
    if |data| < 1 then Outcome(h, [])
    else if data[0] == MsgConnect then Outcome(h, [Packet(id, [MsgConnectAck])])
    else if data[0] == MsgCreateRoom then CreateRoomStep(h, id, data)
    else if data[0] == MsgMazeData then MazeDataStep(h, id, data)
    else if data[0] == MsgJoinRoom then JoinRoomStep(h, id, data)
    else if Relayed(data[0]) then RelayStep(h, id, data)
    else if data[0] == MsgReachExit then ReachExitStep(h, id, data)
    else if data[0] == MsgRestartRequest then RestartStep(h, id, data)
    else Outcome(h, [])
  }

  /**
   * CreateRoom: a fresh code, a room holding the sender as host, and the
   * code sent back.  Fewer than five bytes make readUInt16LE throw, and the
   * data handler's catch drops the message.  The socket's earlier room, if
   * any, keeps its entry.
   */
  function CreateRoomStep(h: Hub, id: Id, data: seq<Byte>): (o: Outcome)
    requires id in h.sessions && |data| >= 1
    ensures o.hub.sessions.Keys == h.sessions.Keys && MazesKept(h.rooms, o.hub.rooms)
  {
    if |data| < 5 then Outcome(h, [])
    else
      var picked := FreshCode(h.rooms, h.draws);
      if picked.None? then Outcome(h, [])
      else
        var code := picked.value.0;
        var room := Room(ReadU16(data, 1), ReadU16(data, 3), None, [Player(id, false, true)], false);
        Outcome(Hub(h.rooms[code := room], h.sessions[id := Session(Some(code), true)], picked.value.1),
                [Packet(id, RoomReply(MsgRoomCreated, code))])
  }

  /**
   * MazeData from the host: the maze is stored; when a second player is
   * waiting and the game has not started, it starts, the guest gets the
   * maze and both get GameStart.
   */
  function MazeDataStep(h: Hub, id: Id, data: seq<Byte>): (o: Outcome)
    requires id in h.sessions
    ensures o.hub.sessions == h.sessions && o.hub.draws == h.draws && o.hub.rooms.Keys == h.rooms.Keys
    ensures forall c :: c in h.rooms && (RoomOf(h, id) != Some(c) || !h.sessions[id].isHost) ==> o.hub.rooms[c] == h.rooms[c]
  {
    var c := RoomOf(h, id);
    if c.None? || !h.sessions[id].isHost then Outcome(h, [])
    else
      var room := h.rooms[c.value].(mazeData := Some(data));
      if |room.players| == 2 && !room.started then
        var guest := FindRole(room.players, false);
        Outcome(h.(rooms := h.rooms[c.value := room.(started := true)]),
                (if guest.Some? then [Packet(room.players[guest.value].id, data)] else [])
                + Deliveries(room.players, None, [MsgGameStart]))
      else Outcome(h.(rooms := h.rooms[c.value := room]), [])
  }

  /**
   * JoinRoom: an unknown code and a full room are refused with RoomError;
   * otherwise the sender is appended as a guest and told so, and the game
   * starts at once if the host's maze is stored, or the host is asked for it.
   */
  function JoinRoomStep(h: Hub, id: Id, data: seq<Byte>): (o: Outcome)
    requires id in h.sessions
    ensures o.hub.sessions.Keys == h.sessions.Keys && o.hub.draws == h.draws && MazesKept(h.rooms, o.hub.rooms)
  {
    var code := JoinCode(data);
    if code !in h.rooms then Outcome(h, [Packet(id, RoomReply(MsgRoomError, NotFound))])
    else
      var room := h.rooms[code];
      if |room.players| >= 2 then Outcome(h, [Packet(id, RoomReply(MsgRoomError, Full))])
      else Admit(h, id, code)
  }

  /** The success path of JoinRoom: the sender seated as guest of the room at code, which has one player. */
  function Admit(h: Hub, id: Id, code: Code): (o: Outcome)
    requires id in h.sessions && code in h.rooms
    ensures o.hub.sessions.Keys == h.sessions.Keys && o.hub.draws == h.draws && MazesKept(h.rooms, o.hub.rooms)
  {
    var room := h.rooms[code];
    var players := room.players + [Player(id, false, false)];
    var sessions := h.sessions[id := Session(Some(code), false)];
    var reply := Packet(id, RoomReply(MsgRoomJoined, code));
    if room.mazeData.Some? then
      Outcome(Hub(h.rooms[code := room.(players := players, started := true)], sessions, h.draws),
              [reply, Packet(id, room.mazeData.value)] + Deliveries(players, None, [MsgGameStart]))
    else
      var host := FindRole(players, true);
      Outcome(Hub(h.rooms[code := room.(players := players)], sessions, h.draws),
              [reply] + (if host.Some? then [Packet(players[host.value].id, [MsgRequestMaze])] else []))
  }

  /** PlayerUpdate, PlayerShoot, GameResult and the NPC messages: passed to the others once started. */
  function RelayStep(h: Hub, id: Id, data: seq<Byte>): (o: Outcome)
    requires id in h.sessions
    ensures o.hub == h
  {
    var c := RoomOf(h, id);
    if c.None? || !h.rooms[c.value].started then Outcome(h, [])
    else Outcome(h, Deliveries(h.rooms[c.value].players, Some(id), data))
  }

  /**
   * ReachExit, once started: the sender's first entry is marked; when every
   * player has reached the exit all get GameWin; the message itself is
   * passed to the others either way.
   */
  function ReachExitStep(h: Hub, id: Id, data: seq<Byte>): (o: Outcome)
    requires id in h.sessions
    ensures o.hub.sessions == h.sessions && o.hub.draws == h.draws && MazesKept(h.rooms, o.hub.rooms)
  {
    var c := RoomOf(h, id);
    if c.None? || !h.rooms[c.value].started then Outcome(h, [])
    else
      var room := h.rooms[c.value];
      var k := FindId(room.players, id);
      if k.None? then Outcome(h, Deliveries(room.players, Some(id), data))
      else
        var players := room.players[k.value := room.players[k.value].(reachedExit := true)];
        Outcome(h.(rooms := h.rooms[c.value := room.(players := players)]),
                (if AllReached(players) then Deliveries(players, None, [MsgGameWin]) else [])
                + Deliveries(players, Some(id), data))
  }

  /** RestartRequest, started or not: back to waiting with every flag cleared, and passed to the others. */
  function RestartStep(h: Hub, id: Id, data: seq<Byte>): (o: Outcome)
    requires id in h.sessions
    ensures o.hub.sessions == h.sessions && o.hub.draws == h.draws && MazesKept(h.rooms, o.hub.rooms)
  {
    var c := RoomOf(h, id);
    if c.None? then Outcome(h, [])
    else
      var room := h.rooms[c.value];
      var players := Cleared(room.players);
      Outcome(h.(rooms := h.rooms[c.value := room.(players := players, started := false)]),
              Deliveries(players, Some(id), data))
  }

  /** The messages of one socket, one after the other. */
  function HandleAll(h: Hub, id: Id, ms: seq<seq<Byte>>): (o: Outcome)
    requires id in h.sessions
    ensures o.hub.sessions.Keys == h.sessions.Keys
    decreases |ms|
  {
    if ms == [] then Outcome(h, [])
    else
      var first := Handle(h, id, ms[0]);
      var rest := HandleAll(first.hub, id, ms[1..]);
      Outcome(rest.hub, first.sent + rest.sent)
  }

  /* ---------------------------------------------------------------- */
  /* The close handler                                                 */
  /* ---------------------------------------------------------------- */

  /**
   * Closing a socket: its entries leave its room; an empty room is deleted;
   * otherwise the room goes back to waiting, every flag is cleared, the
   * first remaining entry becomes host if the leaver's socket was host, and
   * the rest get PlayerLeft.
   *
   * As written the first remaining entry's socket is marked host whatever
   * its current room; `asWritten == false` marks it only when that socket's
   * roomCode is this room.
   */
  function CloseStep(h: Hub, id: Id, asWritten: bool): (o: Outcome)
    requires id in h.sessions
    ensures o.hub.sessions.Keys == h.sessions.Keys - {id} && o.hub.draws == h.draws
  {
    var sessions := h.sessions - {id};
    var c := RoomOf(h, id);
    if c.None? then Outcome(h.(sessions := sessions), [])
    else
      var room := h.rooms[c.value];
      var players := Cleared(Without(room.players, id));
      if players == [] then Outcome(Hub(h.rooms - {c.value}, sessions, h.draws), [])
      else if !h.sessions[id].isHost then
        Outcome(Hub(h.rooms[c.value := room.(players := players, started := false)], sessions, h.draws),
                Deliveries(players, None, [MsgPlayerLeft]))
      else
        var heir := players[0].id;
        var promoted := players[0 := players[0].(isHost := true)];
        var marked := heir in sessions && (asWritten || sessions[heir].roomCode == c);
        Outcome(Hub(h.rooms[c.value := room.(players := promoted, started := false)],
                    if marked then sessions[heir := sessions[heir].(isHost := true)] else sessions, h.draws),
                Deliveries(promoted, None, [MsgPlayerLeft]))
  }

  /* ---------------------------------------------------------------- */
  /* The invariant                                                     */
  /* ---------------------------------------------------------------- */

  /** The socket has an entry in the list. */
  predicate Holds(ps: seq<Player>, id: Id) {
    exists p :: p in ps && p.id == id
  }

  /** The socket has an entry with that role in the list. */
  predicate HoldsAs(ps: seq<Player>, id: Id, host: bool) {
    exists p :: p in ps && p.id == id && p.isHost == host
  }

  /** One or two entries, exactly one of them host. */
  predicate OneHost(ps: seq<Player>) {
    (|ps| == 1 && ps[0].isHost) || (|ps| == 2 && ps[0].isHost != ps[1].isHost)
  }

  /**
   * Every room: one or two players, one host, a stored maze that fits a
   * frame, and a game under way only with a stored maze and two players.
   */
  predicate RoomsOk(rooms: map<Code, Room>) {
    forall c :: c in rooms ==> RoomOk(rooms[c])
  }

  predicate RoomOk(r: Room) {
    OneHost(r.players)
    && (r.mazeData.Some? ==> |r.mazeData.value| < 65536)
    && (r.started ==> r.mazeData.Some? && |r.players| == 2)
  }

  /** A socket's roomCode names a room holding an entry of it. */
  predicate Seated(h: Hub) {
    forall i :: i in h.sessions && h.sessions[i].roomCode.Some? ==>
      h.sessions[i].roomCode.value in h.rooms && Holds(h.rooms[h.sessions[i].roomCode.value].players, i)
  }

  /** A socket not marked host has a guest entry in its room. */
  predicate GuestsSeated(h: Hub) {
    forall i :: i in h.sessions && h.sessions[i].roomCode.Some? && !h.sessions[i].isHost ==>
      h.sessions[i].roomCode.value in h.rooms && HoldsAs(h.rooms[h.sessions[i].roomCode.value].players, i, false)
  }

  /** A socket marked host has the host entry of its room: the check `if (!socket.isHost)` relies on this. */
  predicate HostsSeated(h: Hub) {
    forall i :: i in h.sessions && h.sessions[i].isHost ==>
      h.sessions[i].roomCode.Some? && h.sessions[i].roomCode.value in h.rooms
      && HoldsAs(h.rooms[h.sessions[i].roomCode.value].players, i, true)
  }

  /** What the server keeps as written. */
  predicate Sound(h: Hub) {
    RoomsOk(h.rooms) && Seated(h) && GuestsSeated(h)
  }

  /** What it keeps with the corrected close handler. */
  predicate Consistent(h: Hub) {
    Sound(h) && HostsSeated(h)
  }

  /* ---------------------------------------------------------------- */
  /* The invariant is kept                                             */
  /* ---------------------------------------------------------------- */

  /** Two lists with the same sockets in the same roles, entry by entry. */
  predicate SameSeats(a: seq<Player>, b: seq<Player>) {
    |a| == |b| && forall k :: 0 <= k < |a| ==> a[k].id == b[k].id && a[k].isHost == b[k].isHost
  }

  /** Lists with the same seats agree on every part of the invariant. */
  lemma SeatsAgree(a: seq<Player>, b: seq<Player>)
    requires SameSeats(a, b)
    ensures OneHost(a) <==> OneHost(b)
    ensures forall x :: Holds(a, x) <==> Holds(b, x)
    ensures forall x, host :: HoldsAs(a, x, host) <==> HoldsAs(b, x, host)
  {
    forall x, host | HoldsAs(a, x, host) ensures HoldsAs(b, x, host) {
      var p :| p in a && p.id == x && p.isHost == host;
      var k :| 0 <= k < |a| && a[k] == p;
      assert b[k] in b;
    }
    forall x, host | HoldsAs(b, x, host) ensures HoldsAs(a, x, host) {
      var p :| p in b && p.id == x && p.isHost == host;
      var k :| 0 <= k < |b| && b[k] == p;
      assert a[k] in a;
    }
    forall x | Holds(a, x) ensures Holds(b, x) {
      var p :| p in a && p.id == x;
      assert HoldsAs(a, x, p.isHost);
    }
    forall x | Holds(b, x) ensures Holds(a, x) {
      var p :| p in b && p.id == x;
      assert HoldsAs(b, x, p.isHost);
    }
  }

  /** Marking an entry as at the exit keeps the seats. */
  lemma MarkKeepsSeats(ps: seq<Player>, k: nat)
    requires k < |ps|
    ensures SameSeats(ps, ps[k := ps[k].(reachedExit := true)])
  {
  }

  /**
   * Replacing one room by a room with the same seats and a maze that fits
   * a frame keeps the invariant: the case of MazeData, ReachExit and
   * RestartRequest.
   */
  lemma ReseatKeeps(h: Hub, c: Code, r: Room)
    requires c in h.rooms && SameSeats(h.rooms[c].players, r.players)
    requires r.mazeData == h.rooms[c].mazeData || (r.mazeData.Some? ==> |r.mazeData.value| < 65536)
    requires r.started ==> r.mazeData.Some? && (h.rooms[c].started || |r.players| == 2)
    ensures Sound(h) ==> Sound(h.(rooms := h.rooms[c := r]))
    ensures Consistent(h) ==> Consistent(h.(rooms := h.rooms[c := r]))
  {
    SeatsAgree(h.rooms[c].players, r.players);
  }

  /** Taking a socket's entries out: the others keep theirs, and a socket that had one loses at least one entry. */
  lemma {:induction false} LeaveSeats(ps: seq<Player>, id: Id)
    ensures forall x, host :: x != id ==> (HoldsAs(Without(ps, id), x, host) <==> HoldsAs(ps, x, host))
    ensures forall x :: x != id ==> (Holds(Without(ps, id), x) <==> Holds(ps, x))
    ensures Holds(ps, id) ==> |Without(ps, id)| < |ps|
    decreases |ps|
  {
    if ps != [] {
      LeaveSeats(ps[1..], id);
      if Holds(ps, id) && ps[0].id != id {
        var p :| p in ps && p.id == id;
        assert p in ps[1..];
      }
    }
  }

  /** A new room under an unused code, holding its creator as host, keeps the invariant. */
  lemma CreateKeeps(h: Hub, id: Id, data: seq<Byte>)
    requires id in h.sessions && |data| >= 1
    ensures Sound(h) ==> Sound(CreateRoomStep(h, id, data).hub)
    ensures Consistent(h) ==> Consistent(CreateRoomStep(h, id, data).hub)
  {
    var picked := FreshCode(h.rooms, h.draws);
    if |data| >= 5 && picked.Some? {
      var code := picked.value.0;
      var h' := CreateRoomStep(h, id, data).hub;
      var host := Player(id, false, true);
      assert host in h'.rooms[code].players;
      forall i | i in h.sessions && i != id && h.sessions[i].roomCode.Some? && h.sessions[i].roomCode.value in h.rooms
        ensures h'.rooms[h.sessions[i].roomCode.value] == h.rooms[h.sessions[i].roomCode.value]
      {
      }
    }
  }

  /** An entry appended to a list keeps every entry already there. */
  lemma AppendSeats(ps: seq<Player>, p: Player)
    ensures p in ps + [p]
    ensures forall x, host :: HoldsAs(ps, x, host) ==> HoldsAs(ps + [p], x, host)
    ensures forall x :: Holds(ps, x) ==> Holds(ps + [p], x)
  {
    forall x, host | HoldsAs(ps, x, host) ensures HoldsAs(ps + [p], x, host) {
      var q :| q in ps && q.id == x && q.isHost == host;
      assert q in ps + [p];
    }
    forall x | Holds(ps, x) ensures Holds(ps + [p], x) {
      var q :| q in ps && q.id == x;
      assert q in ps + [p];
    }
  }

  /** A guest entry appended to a one-player room keeps the invariant. */
  lemma JoinKeeps(h: Hub, id: Id, data: seq<Byte>)
    requires id in h.sessions
    ensures Sound(h) ==> Sound(JoinRoomStep(h, id, data).hub)
    ensures Consistent(h) ==> Consistent(JoinRoomStep(h, id, data).hub)
  {
    var code := JoinCode(data);
    if Sound(h) && code in h.rooms && |h.rooms[code].players| < 2 {
      var ps := h.rooms[code].players;
      var guest := Player(id, false, false);
      AppendSeats(ps, guest);
      assert !h.rooms[code].started;
      JoinedRoom(h, id, code, h.rooms[code].(players := ps + [guest], started := h.rooms[code].mazeData.Some?));
    }
  }

  /** The invariant after code's room is replaced by r, holding one more entry, the joiner's guest entry. */
  lemma JoinedRoom(h: Hub, id: Id, code: Code, r: Room)
    requires Sound(h) && id in h.sessions && code in h.rooms && |h.rooms[code].players| < 2
    requires r.players == h.rooms[code].players + [Player(id, false, false)] && r.mazeData == h.rooms[code].mazeData
    requires forall x, host :: HoldsAs(h.rooms[code].players, x, host) ==> HoldsAs(r.players, x, host)
    requires forall x :: Holds(h.rooms[code].players, x) ==> Holds(r.players, x)
    requires Player(id, false, false) in r.players && (r.started ==> r.mazeData.Some?)
    ensures Sound(Hub(h.rooms[code := r], h.sessions[id := Session(Some(code), false)], h.draws))
    ensures HostsSeated(h) ==> HostsSeated(Hub(h.rooms[code := r], h.sessions[id := Session(Some(code), false)], h.draws))
  {
    assert OneHost(r.players);
  }

  /** Handling any message keeps the invariant, as written and corrected alike. */
  lemma HandleKeeps(h: Hub, id: Id, data: seq<Byte>)
    requires id in h.sessions && |data| < 65536
    ensures Sound(h) ==> Sound(Handle(h, id, data).hub)
    ensures Consistent(h) ==> Consistent(Handle(h, id, data).hub)
  {
    if |data| >= 1 {
      var c := RoomOf(h, id);
      if data[0] == MsgCreateRoom {
        CreateKeeps(h, id, data);
      } else if data[0] == MsgJoinRoom {
        JoinKeeps(h, id, data);
      } else if data[0] == MsgMazeData && c.Some? && h.sessions[id].isHost {
        var r := h.rooms[c.value].(mazeData := Some(data));
        if |r.players| == 2 && !r.started {
          ReseatKeeps(h, c.value, r.(started := true));
        } else {
          ReseatKeeps(h, c.value, r);
        }
      } else if data[0] == MsgReachExit && c.Some? && Sound(h) {
        var ps := h.rooms[c.value].players;
        var k := FindId(ps, id);
        if k.Some? {
          MarkKeepsSeats(ps, k.value);
          ReseatKeeps(h, c.value, h.rooms[c.value].(players := ps[k.value := ps[k.value].(reachedExit := true)]));
        }
      } else if data[0] == MsgRestartRequest && c.Some? {
        var ps := h.rooms[c.value].players;
        ClearKeepsSeats(ps);
        ReseatKeeps(h, c.value, h.rooms[c.value].(players := Cleared(ps), started := false));
      }
    }
  }

  /**
   * Everything a message makes the server send fits the 16-bit length of a
   * frame: relayed messages came in a frame, a stored maze fits one, and
   * the replies are short.
   */
  lemma HandleSendable(h: Hub, id: Id, data: seq<Byte>)
    requires Sound(h) && id in h.sessions && |data| < 65536
    ensures Sendable(Handle(h, id, data).sent)
  {
    if |data| >= 1 {
      if data[0] == MsgJoinRoom {
        JoinSendable(h, id, data);
      } else if data[0] == MsgMazeData {
        MazeSendable(h, id, data);
      } else if data[0] == MsgReachExit {
        assert Handle(h, id, data) == ReachExitStep(h, id, data);
        AllFit(ReachExitStep(h, id, data).sent);
      } else {
        AllFit(Handle(h, id, data).sent);
      }
    }
  }

  /** Each of some packets fits a frame. */
  lemma AllFit(out: seq<Packet>)
    requires forall p :: p in out ==> |p.payload| < 65536
    ensures Sendable(out)
  {
    forall k | 0 <= k < |out| ensures |out[k].payload| < 65536 {
      assert out[k] in out;
    }
  }

  lemma JoinSendable(h: Hub, id: Id, data: seq<Byte>)
    requires Sound(h) && id in h.sessions && |data| >= 1 && data[0] == MsgJoinRoom
    ensures Sendable(Handle(h, id, data).sent)
  {
    var code := JoinCode(data);
    assert Handle(h, id, data) == JoinRoomStep(h, id, data);
    if code in h.rooms && |h.rooms[code].players| < 2 {
      assert RoomOk(h.rooms[code]);
      AdmitSendable(h, id, code);
    } else {
      AllFit(JoinRoomStep(h, id, data).sent);
    }
  }

  lemma AdmitSendable(h: Hub, id: Id, code: Code)
    requires id in h.sessions && code in h.rooms && |code| < 65534
    requires h.rooms[code].mazeData.Some? ==> |h.rooms[code].mazeData.value| < 65536
    ensures Sendable(Admit(h, id, code).sent)
  {
    AllFit(Admit(h, id, code).sent);
  }

  lemma MazeSendable(h: Hub, id: Id, data: seq<Byte>)
    requires id in h.sessions && |data| < 65536 && |data| >= 1 && data[0] == MsgMazeData
    ensures Sendable(Handle(h, id, data).sent)
  {
    assert Handle(h, id, data) == MazeDataStep(h, id, data);
    AllFit(MazeDataStep(h, id, data).sent);
  }

  /** PlayerLeft, the one message closing a socket sends, fits a frame. */
  lemma CloseSendable(h: Hub, id: Id, asWritten: bool)
    requires id in h.sessions
    ensures Sendable(CloseStep(h, id, asWritten).sent)
  {
    AllFit(CloseStep(h, id, asWritten).sent);
  }

  /**
   * What a leaver leaves in a room of one or two entries: at most one
   * entry, someone else's, in the role it had; the host entry when the
   * leaver held only a guest entry; nothing when it held both.
   */
  lemma Remaining(ps: seq<Player>, id: Id)
    requires OneHost(ps) && Holds(ps, id)
    ensures var qs := Cleared(Without(ps, id));
      |qs| <= 1
      && (qs != [] ==> qs[0].id != id)
      && (!HoldsAs(ps, id, true) ==> qs != [] && qs[0].isHost)
      && (HoldsAs(ps, id, true) && HoldsAs(ps, id, false) ==> qs == [])
      && (forall x, host :: x != id ==> (HoldsAs(qs, x, host) <==> HoldsAs(ps, x, host)))
      && (forall x :: x != id ==> (Holds(qs, x) <==> Holds(ps, x)))
  {
    var ws := Without(ps, id);
    var qs := Cleared(ws);
    LeaveSeats(ps, id);
    ClearKeepsSeats(ws);
    SeatsAgree(ws, qs);
    if qs != [] {
      assert ws[0] in ws;
    }
    if !HoldsAs(ps, id, true) {
      var k: nat := if ps[0].isHost then 0 else 1;
      assert ps[k] in ps && ps[k].isHost;
      assert ps[k].id != id;
      assert HoldsAs(ws, ps[k].id, true);
      assert qs != [];
      assert HoldsAs(qs, ps[k].id, true);
      var p :| p in qs && p.id == ps[k].id && p.isHost;
    }
    if HoldsAs(ps, id, true) && HoldsAs(ps, id, false) {
      assert |ps| == 2;
      assert ps[0].id == id && ps[1].id == id;
      assert ws == [];
    }
  }

  /** Clearing the flags keeps the seats. */
  lemma ClearKeepsSeats(ps: seq<Player>)
    ensures SameSeats(ps, Cleared(ps))
  {
  }

  /** The last socket of a room leaves: the room goes, and no other socket named it. */
  lemma DeletedRoom(h: Hub, id: Id, c: Code)
    requires Sound(h) && id in h.sessions && c in h.rooms
    requires forall x :: x != id ==> !Holds(h.rooms[c].players, x)
    ensures Sound(Hub(h.rooms - {c}, h.sessions - {id}, h.draws))
    ensures HostsSeated(h) ==> HostsSeated(Hub(h.rooms - {c}, h.sessions - {id}, h.draws))
  {
  }

  /** A socket not marked host leaves a room that keeps an entry: that entry is the host's. */
  lemma GuestLeft(h: Hub, id: Id, c: Code, qs: seq<Player>)
    requires Sound(h) && id in h.sessions && c in h.rooms && OneHost(qs)
    requires forall x, host :: x != id ==> (HoldsAs(qs, x, host) <==> HoldsAs(h.rooms[c].players, x, host))
    requires forall x :: x != id ==> (Holds(qs, x) <==> Holds(h.rooms[c].players, x))
    ensures Sound(Hub(h.rooms[c := h.rooms[c].(players := qs, started := false)], h.sessions - {id}, h.draws))
    ensures HostsSeated(h) ==>
      HostsSeated(Hub(h.rooms[c := h.rooms[c].(players := qs, started := false)], h.sessions - {id}, h.draws))
  {
  }

  /**
   * The host socket leaves a room that keeps one entry: the entry becomes
   * host, and its socket is marked host when `marked`.  A socket marked
   * host in its own room this way keeps the invariant; as written,
   * marking is the only difference.
   */
  lemma HostLeft(h: Hub, id: Id, c: Code, qs: seq<Player>, marked: bool)
    requires Sound(h) && id in h.sessions && c in h.rooms && |qs| == 1 && qs[0].id != id
    requires forall x, host :: x != id ==> (HoldsAs(qs, x, host) <==> HoldsAs(h.rooms[c].players, x, host))
    requires forall x :: x != id ==> (Holds(qs, x) <==> Holds(h.rooms[c].players, x))
    requires marked ==> qs[0].id in h.sessions
    requires !marked ==> qs[0].id in h.sessions ==> h.sessions[qs[0].id].roomCode != Some(c)
    ensures var heir := qs[0].id;
      var sessions := h.sessions - {id};
      var h' := Hub(h.rooms[c := h.rooms[c].(players := [qs[0].(isHost := true)], started := false)],
                    if marked then sessions[heir := sessions[heir].(isHost := true)] else sessions, h.draws);
      Sound(h') && (HostsSeated(h) && (marked ==> h.sessions[heir].roomCode == Some(c)) ==> HostsSeated(h'))
  {
    var heir := qs[0].id;
    var promoted := [qs[0].(isHost := true)];
    assert promoted[0] in promoted;
    forall x | x != id && Holds(h.rooms[c].players, x) ensures x == heir {
      assert Holds(qs, x);
      var p :| p in qs && p.id == x;
    }
  }

  /**
   * Closing a socket keeps the invariant the server keeps as written,
   * under either promotion rule; with the corrected one a socket marked
   * host also still holds its room's host entry.
   */
  lemma CloseKeeps(h: Hub, id: Id, asWritten: bool)
    requires id in h.sessions && Sound(h)
    ensures Sound(CloseStep(h, id, asWritten).hub)
    ensures HostsSeated(h) && !asWritten ==> HostsSeated(CloseStep(h, id, asWritten).hub)
  {
    var c := RoomOf(h, id);
    if c.Some? {
      var code := c.value;
      var ps := h.rooms[code].players;
      Remaining(ps, id);
      var qs := Cleared(Without(ps, id));
      var sessions := h.sessions - {id};
      if qs == [] {
        DeletedRoom(h, id, code);
      } else if !h.sessions[id].isHost {
        GuestLeft(h, id, code, qs);
      } else {
        var heir := qs[0].id;
        var marked := heir in sessions && (asWritten || sessions[heir].roomCode == c);
        assert qs[0 := qs[0].(isHost := true)] == [qs[0].(isHost := true)];
        HostLeft(h, id, code, qs, marked);
      }
    }
  }

  /** A broadcast reaches exactly the players other than the one skipped, with the data unchanged. */
  lemma {:induction false} DeliveriesReach(ps: seq<Player>, except: Option<Id>, data: seq<Byte>)
    ensures forall x: Id :: Packet(x, data) in Deliveries(ps, except, data) <==> Holds(ps, x) && Some(x) != except
    decreases |ps|
  {
    if ps != [] {
      DeliveriesReach(ps[1..], except, data);
      forall x | Holds(ps, x) && x != ps[0].id ensures Holds(ps[1..], x) {
        var p :| p in ps && p.id == x;
        assert p in ps[1..];
      }
      forall x | Holds(ps[1..], x) ensures Holds(ps, x) {
        var p :| p in ps[1..] && p.id == x;
        assert p in ps;
      }
      assert ps[0] in ps;
    }
  }

  /** The writes to one socket are the frames of its payloads back to back. */
  lemma {:induction false} WrittenFramed(out: seq<Packet>, to: Id)
    requires Sendable(out)
    ensures Framable(PayloadsTo(out, to)) && Written(out, to) == Framed(PayloadsTo(out, to))
    decreases |out|
  {
    if out != [] {
      assert Sendable(out[1..]) by {
        forall k | 0 <= k < |out[1..]| ensures |out[1..][k].payload| < 65536 {
          assert out[1..][k] == out[k + 1];
        }
      }
      WrittenFramed(out[1..], to);
      var rest := PayloadsTo(out[1..], to);
      if out[0].to == to {
        var ms := PayloadsTo(out, to);
        assert ms == [out[0].payload] + rest;
        assert ms[1..] == rest;
        assert Framed(ms) == Frame(out[0].payload) + Framed(rest);
        assert Written(out, to) == Frame(out[0].payload) + Written(out[1..], to);
        assert |out[0].payload| < 65536;
        forall k | 0 <= k < |ms| ensures |ms[k]| < 65536 {
          if k > 0 {
            assert ms[k] == rest[k - 1];
          }
        }
      } else {
        assert Written(out, to) == Written(out[1..], to) by {
          assert [] + Written(out[1..], to) == Written(out[1..], to);
        }
        assert PayloadsTo(out, to) == rest by {
          assert [] + rest == rest;
        }
      }
    }
  }

  /**
   * What the server writes to a socket reaches the client's receive loop
   * as the same payloads in the same order, and leaves nothing behind.
   */
  lemma ClientReceives(out: seq<Packet>, to: Id)
    requires Sendable(out)
    ensures Messages(Written(out, to)) == PayloadsTo(out, to)
    ensures Remainder(Written(out, to)) == []
  {
    WrittenFramed(out, to);
    SplitFramed(PayloadsTo(out, to), []);
    assert Framed(PayloadsTo(out, to)) + [] == Written(out, to);
  }

  /* ---------------------------------------------------------------- */
  /* The rules of each message                                         */
  /* ---------------------------------------------------------------- */

  /** JoinRoom to an unknown code or to a full room changes nothing, and the client reads the refusal as an error. */
  lemma JoinRefused(h: Hub, id: Id, data: seq<Byte>)
    requires id in h.sessions && |data| >= 1 && data[0] == MsgJoinRoom
    requires JoinCode(data) !in h.rooms || |h.rooms[JoinCode(data)].players| >= 2
    ensures var o := Handle(h, id, data);
      o.hub == h && |o.sent| == 1 && o.sent[0].to == id
      && NetClient.Reaction(o.sent[0].payload)
         == [NetClient.Error(if JoinCode(data) !in h.rooms then "Room not found" else "Room is full")]
  {
    NotFoundDecoded();
    FullDecoded();
  }

  /** The client reads the refusal of an unknown code as an error carrying its text. */
  lemma NotFoundDecoded()
    ensures NetClient.Reaction(RoomReply(MsgRoomError, NotFound)) == [NetClient.Error("Room not found")]
  {
    RefusalDecoded(NotFound, "Room not found");
  }

  /** The client reads the refusal of a full room as an error carrying its text. */
  lemma FullDecoded()
    ensures NetClient.Reaction(RoomReply(MsgRoomError, Full)) == [NetClient.Error("Room is full")]
  {
    RefusalDecoded(Full, "Room is full");
  }

  /** A RoomError carrying the bytes of a one-byte text is read back as that text. */
  lemma RefusalDecoded(text: seq<Byte>, message: string)
    requires 0 < |text| < 256 && Narrow(message) && text == Bytes(message)
    ensures NetClient.Reaction(RoomReply(MsgRoomError, text)) == [NetClient.Error(message)]
  {
    NetClient.RoomReplyDecoded(text, "");
    TextRoundTrip(text, message);
  }

  /**
   * A JoinRoom to a room with one player seats the sender as its guest, so
   * the room holds two; with a stored maze the game starts, the joiner gets
   * the maze and everyone GameStart; otherwise only the host is asked for
   * the maze.
   */
  lemma JoinAdmitted(h: Hub, id: Id, data: seq<Byte>)
    requires Sound(h) && id in h.sessions && |data| >= 1 && data[0] == MsgJoinRoom
    requires JoinCode(data) in h.rooms && |h.rooms[JoinCode(data)].players| < 2
    ensures var code := JoinCode(data);
      var o := Handle(h, id, data);
      var r, r' := h.rooms[code], o.hub.rooms[code];
      r'.players == r.players + [Player(id, false, false)] && |r'.players| == 2
      && o.hub.sessions[id] == Session(Some(code), false)
      && o.sent[0] == Packet(id, RoomReply(MsgRoomJoined, code))
      && (r.mazeData.Some? ==> (r'.started && o.sent[1] == Packet(id, r.mazeData.value)
           && forall x :: Holds(r'.players, x) ==> Packet(x, [MsgGameStart]) in o.sent))
      && (r.mazeData.None? ==> (!r'.started && r.players[0].isHost
           && o.sent == [o.sent[0], Packet(r.players[0].id, [MsgRequestMaze])]))
  {
    var code := JoinCode(data);
    var players := h.rooms[code].players + [Player(id, false, false)];
    assert RoomOk(h.rooms[code]);
    DeliveriesReach(players, None, [MsgGameStart]);
    var o := Handle(h, id, data);
    assert o.sent[0] == Packet(id, RoomReply(MsgRoomJoined, code));
  }

  /**
   * MazeData is ignored unless the sender is marked host and has a room;
   * then it is stored, and when a second player waits the game starts: the
   * guest gets the maze and everyone GameStart.
   */
  lemma MazeStored(h: Hub, id: Id, data: seq<Byte>)
    requires Sound(h) && id in h.sessions && |data| >= 1 && data[0] == MsgMazeData
    ensures var o := Handle(h, id, data);
      var c := RoomOf(h, id);
      ((c.None? || !h.sessions[id].isHost) ==> o == Outcome(h, []))
      && (c.Some? && h.sessions[id].isHost ==>
           var r, r' := h.rooms[c.value], o.hub.rooms[c.value];
           o.hub == h.(rooms := h.rooms[c.value := r']) && r'.mazeData == Some(data) && r'.players == r.players
           && r'.started == (r.started || |r.players| == 2)
           && (!r.started && |r.players| == 2 ==>
                (exists p :: p in r.players && !p.isHost && o.sent[0] == Packet(p.id, data))
                && forall x :: Holds(r.players, x) ==> Packet(x, [MsgGameStart]) in o.sent)
           && (r.started || |r.players| < 2 ==> o.sent == []))
  {
    var c := RoomOf(h, id);
    if c.Some? && h.sessions[id].isHost {
      var r := h.rooms[c.value];
      assert RoomOk(r);
      DeliveriesReach(r.players, None, [MsgGameStart]);
      if !r.started && |r.players| == 2 {
        var g := FindRole(r.players, false);
        assert g.Some? by {
          assert !r.players[0].isHost || !r.players[1].isHost;
        }
        assert r.players[g.value] in r.players;
      }
    }
  }

  /**
   * The stored maze of a room changes only on a MazeData from the socket
   * holding that room's host entry: with the corrected close handler,
   * `if (!socket.isHost)` does what its comment says.
   */
  lemma MazeOnlyFromHost(h: Hub, id: Id, data: seq<Byte>)
    requires Consistent(h) && id in h.sessions
    ensures var after := Handle(h, id, data).hub.rooms;
      forall c :: c in h.rooms && c in after && after[c].mazeData != h.rooms[c].mazeData ==>
        |data| >= 1 && data[0] == MsgMazeData
        && h.sessions[id].roomCode == Some(c) && HoldsAs(h.rooms[c].players, id, true)
  {
    if |data| >= 1 {
      if data[0] == MsgCreateRoom {
        assert MazesKept(h.rooms, CreateRoomStep(h, id, data).hub.rooms);
      } else if data[0] == MsgJoinRoom {
        assert MazesKept(h.rooms, JoinRoomStep(h, id, data).hub.rooms);
      } else if data[0] == MsgReachExit {
        assert MazesKept(h.rooms, ReachExitStep(h, id, data).hub.rooms);
      } else if data[0] == MsgRestartRequest {
        assert MazesKept(h.rooms, RestartStep(h, id, data).hub.rooms);
      }
    }
  }

  /** PlayerUpdate, PlayerShoot, GameResult and the NPC messages: nothing changes, and they go only to the others in a started room, unchanged. */
  lemma RelayRules(h: Hub, id: Id, data: seq<Byte>)
    requires id in h.sessions && |data| >= 1 && Relayed(data[0])
    ensures var o := Handle(h, id, data);
      var c := RoomOf(h, id);
      o.hub == h
      && (forall p :: p in o.sent ==> p.to != id && p.payload == data)
      && (o.sent != [] ==> c.Some? && h.rooms[c.value].started)
      && (c.Some? && h.rooms[c.value].started ==>
           forall x :: x != id && Holds(h.rooms[c.value].players, x) ==> Packet(x, data) in o.sent)
  {
    var c := RoomOf(h, id);
    if c.Some? {
      DeliveriesReach(h.rooms[c.value].players, Some(id), data);
    }
  }

  /**
   * Marking the sender's entry in a list and sending from the marked list:
   * the seats stay, the sender is done, GameWin goes to all exactly when
   * all are done, and the message goes to the others.
   */
  lemma MarkedSends(ps: seq<Player>, k: nat, id: Id, data: seq<Byte>)
    requires k < |ps| && ps[k].id == id && data != [MsgGameWin]
    ensures var qs := ps[k := ps[k].(reachedExit := true)];
      var sent := (if AllReached(qs) then Deliveries(qs, None, [MsgGameWin]) else [])
                  + Deliveries(qs, Some(id), data);
      SameSeats(ps, qs)
      && (exists p :: p in qs && p.id == id && p.reachedExit)
      && ((exists x :: Packet(x, [MsgGameWin]) in sent) <==> AllReached(qs))
      && (AllReached(qs) ==> forall x :: Holds(ps, x) ==> Packet(x, [MsgGameWin]) in sent)
      && (forall x :: x != id && Holds(ps, x) ==> Packet(x, data) in sent)
  {
    var qs := ps[k := ps[k].(reachedExit := true)];
    MarkKeepsSeats(ps, k);
    SeatsAgree(ps, qs);
    assert qs[k] in qs;
    DeliveriesReach(qs, None, [MsgGameWin]);
    DeliveriesReach(qs, Some(id), data);
    var sent := (if AllReached(qs) then Deliveries(qs, None, [MsgGameWin]) else [])
                + Deliveries(qs, Some(id), data);
    if AllReached(qs) {
      assert Holds(qs, qs[0].id);
      assert Packet(qs[0].id, [MsgGameWin]) in sent;
    } else {
      assert sent == Deliveries(qs, Some(id), data);
    }
  }

  /**
   * ReachExit in a started room marks the sender, and sends GameWin to
   * everyone exactly when every player has now reached the exit; the
   * message goes on to the others either way.
   */
  lemma ReachExitRules(h: Hub, id: Id, data: seq<Byte>)
    requires id in h.sessions && |data| >= 1 && data[0] == MsgReachExit
    requires RoomOf(h, id).Some? && h.rooms[RoomOf(h, id).value].started
    requires Holds(h.rooms[RoomOf(h, id).value].players, id)
    ensures var c := RoomOf(h, id).value;
      var o := Handle(h, id, data);
      var r, r' := h.rooms[c], o.hub.rooms[c];
      SameSeats(r.players, r'.players) && r'.started && r'.mazeData == r.mazeData
      && (exists p :: p in r'.players && p.id == id && p.reachedExit)
      && ((exists x :: Packet(x, [MsgGameWin]) in o.sent) <==> AllReached(r'.players))
      && (AllReached(r'.players) ==> forall x :: Holds(r.players, x) ==> Packet(x, [MsgGameWin]) in o.sent)
      && (forall x :: x != id && Holds(r.players, x) ==> Packet(x, data) in o.sent)
  {
    var c := RoomOf(h, id).value;
    var ps := h.rooms[c].players;
    var k := FindId(ps, id);
    assert k.Some? by {
      var p :| p in ps && p.id == id;
      var j :| 0 <= j < |ps| && ps[j] == p;
    }
    assert data != [MsgGameWin];
    MarkedSends(ps, k.value, id, data);
    var qs := ps[k.value := ps[k.value].(reachedExit := true)];
    assert Handle(h, id, data) == ReachExitStep(h, id, data);
    assert ReachExitStep(h, id, data).hub.rooms[c] == h.rooms[c].(players := qs);
    assert ReachExitStep(h, id, data).sent
           == (if AllReached(qs) then Deliveries(qs, None, [MsgGameWin]) else []) + Deliveries(qs, Some(id), data);
  }

  /** RestartRequest puts the room back to waiting, clears every flag and keeps the seats; the others are told. */
  lemma RestartRules(h: Hub, id: Id, data: seq<Byte>)
    requires id in h.sessions && |data| >= 1 && data[0] == MsgRestartRequest && RoomOf(h, id).Some?
    ensures var c := RoomOf(h, id).value;
      var o := Handle(h, id, data);
      var r, r' := h.rooms[c], o.hub.rooms[c];
      !r'.started && SameSeats(r.players, r'.players) && r'.mazeData == r.mazeData
      && (forall k :: 0 <= k < |r'.players| ==> !r'.players[k].reachedExit)
      && (forall p :: p in o.sent ==> p.to != id && p.payload == data)
      && (forall x :: x != id && Holds(r.players, x) ==> Packet(x, data) in o.sent)
  {
    var ps := h.rooms[RoomOf(h, id).value].players;
    ClearKeepsSeats(ps);
    SeatsAgree(ps, Cleared(ps));
    DeliveriesReach(Cleared(ps), Some(id), data);
  }

  /**
   * The one entry left in a room, made host when the leaver was the host:
   * it is not the leaver's, the room has one host, no flag is set, and
   * PlayerLeft reaches its socket.
   */
  lemma Survivor(qs: seq<Player>, id: Id, promote: bool)
    requires |qs| == 1 && qs[0].id != id && !qs[0].reachedExit && (promote || qs[0].isHost)
    ensures var ps := if promote then qs[0 := qs[0].(isHost := true)] else qs;
      !Holds(ps, id) && OneHost(ps)
      && (forall k :: 0 <= k < |ps| ==> !ps[k].reachedExit)
      && (forall x :: Holds(ps, x) <==> Holds(qs, x))
      && (forall x :: Holds(ps, x) ==> Packet(x, [MsgPlayerLeft]) in Deliveries(ps, None, [MsgPlayerLeft]))
  {
    var ps := if promote then qs[0 := qs[0].(isHost := true)] else qs;
    assert ps[0] in ps && qs[0] in qs;
    DeliveriesReach(ps, None, [MsgPlayerLeft]);
    forall x | Holds(ps, x) ensures x == qs[0].id {
      var p :| p in ps && p.id == x;
    }
    forall x | Holds(qs, x) ensures x == qs[0].id {
      var p :| p in qs && p.id == x;
    }
  }

  /**
   * Closing a socket: its entries leave its room; the room is deleted
   * exactly when no one else was in it; otherwise it is waiting again, has
   * one host, every flag clear, and everyone left in it is told.
   */
  lemma CloseRules(h: Hub, id: Id)
    requires Consistent(h) && id in h.sessions && RoomOf(h, id).Some?
    ensures var c := RoomOf(h, id).value;
      var o := CloseStep(h, id, false);
      var r := h.rooms[c];
      id !in o.hub.sessions
      && (c !in o.hub.rooms <==> forall x :: Holds(r.players, x) ==> x == id)
      && (c in o.hub.rooms ==>
           var r' := o.hub.rooms[c];
           !Holds(r'.players, id) && !r'.started && OneHost(r'.players) && r'.mazeData == r.mazeData
           && (forall k :: 0 <= k < |r'.players| ==> !r'.players[k].reachedExit)
           && (forall x :: x != id ==> (Holds(r'.players, x) <==> Holds(r.players, x)))
           && forall x :: Holds(r'.players, x) ==> Packet(x, [MsgPlayerLeft]) in o.sent)
  {
    var c := RoomOf(h, id).value;
    var ps := h.rooms[c].players;
    Remaining(ps, id);
    var qs := Cleared(Without(ps, id));
    if qs != [] {
      var promote := h.sessions[id].isHost;
      assert Holds(qs, qs[0].id) by { assert qs[0] in qs; }
      assert !promote ==> qs[0].isHost;
      Survivor(qs, id, promote);
      var o := CloseStep(h, id, false);
      assert o.hub.rooms[c].players == (if promote then qs[0 := qs[0].(isHost := true)] else qs);
    } else {
      forall x | Holds(ps, x) ensures x == id {
        assert !Holds(qs, x);
      }
    }
  }

  /* ---------------------------------------------------------------- */
  /* Agreement with the client                                         */
  /* ---------------------------------------------------------------- */

  /**
   * A room code the server sends back is the code the client keeps, and
   * that code, sent in the client's JoinRoom, names the same room again.
   */
  lemma CodeRoundTrip(code: Code, kept: string)
    requires 0 < |code| < 256
    ensures NetClient.CodeAfter(RoomReply(MsgRoomCreated, code), kept) == Text(code)
    ensures NetClient.CodeAfter(RoomReply(MsgRoomJoined, code), kept) == Text(code)
    ensures JoinCode(NetClient.JoinRoomPayload(Text(code))) == code
  {
    NetClient.RoomReplyDecoded(code, kept);
    TextRoundTrip(code, "");
    var payload := NetClient.JoinRoomPayload(Text(code));
    assert payload[2..2 + |code|] == Bytes(Text(code));
  }

  /** A new room's code is four digits, so the reply fits and the client keeps it. */
  lemma CreatedCodeReachesClient(h: Hub, id: Id, data: seq<Byte>, kept: string)
    requires id in h.sessions && |data| >= 5 && data[0] == MsgCreateRoom && FreshCode(h.rooms, h.draws).Some?
    ensures var o := Handle(h, id, data);
      var code := FreshCode(h.rooms, h.draws).value.0;
      code !in h.rooms && o.hub.sessions[id] == Session(Some(code), true)
      && o.hub.rooms[code] == Room(ReadU16(data, 1), ReadU16(data, 3), None, [Player(id, false, true)], false)
      && o.sent == [Packet(id, RoomReply(MsgRoomCreated, code))]
      && NetClient.CodeAfter(o.sent[0].payload, kept) == Text(code)
  {
    CodeRoundTrip(FreshCode(h.rooms, h.draws).value.0, kept);
  }

  /* ---------------------------------------------------------------- */
  /* Host promotion as written                                         */
  /* ---------------------------------------------------------------- */

  /*
   * A run of four messages from three sockets, A = 1, B = 2 and X = 3:
   * A creates room 1001, B joins it, X creates room 1003, and B joins that
   * too, so that B's guest entry in 1001 stays behind.
   */

  const CodeA: Code := [49, 48, 48, 49]
  const CodeX: Code := [49, 48, 48, 51]
  const Create: seq<Byte> := [MsgCreateRoom, 9, 0, 9, 0]
  const Idle := Session(None, false)

  /** The draws 1001 and 1003 give the codes "1001" and "1003". */
  lemma DrawnCodes()
    ensures Digits(1001) == CodeA && Digits(1003) == CodeX
  {
  }

  function Opening(): Hub {
    Hub(map[], map[1 := Idle, 2 := Idle, 3 := Idle], [1001, 1003])
  }

  function AfterA(): Hub {
    Hub(map[CodeA := Room(9, 9, None, [Player(1, false, true)], false)],
        map[1 := Session(Some(CodeA), true), 2 := Idle, 3 := Idle], [1003])
  }

  function AfterB(): Hub {
    Hub(map[CodeA := Room(9, 9, None, [Player(1, false, true), Player(2, false, false)], false)],
        map[1 := Session(Some(CodeA), true), 2 := Session(Some(CodeA), false), 3 := Idle], [1003])
  }

  function AfterX(): Hub {
    Hub(map[CodeA := Room(9, 9, None, [Player(1, false, true), Player(2, false, false)], false),
            CodeX := Room(9, 9, None, [Player(3, false, true)], false)],
        map[1 := Session(Some(CodeA), true), 2 := Session(Some(CodeA), false), 3 := Session(Some(CodeX), true)], [])
  }

  function Prelude(): Hub {
    Hub(map[CodeA := Room(9, 9, None, [Player(1, false, true), Player(2, false, false)], false),
            CodeX := Room(9, 9, None, [Player(3, false, true), Player(2, false, false)], false)],
        map[1 := Session(Some(CodeA), true), 2 := Session(Some(CodeX), false), 3 := Session(Some(CodeX), true)], [])
  }

  lemma StepA()
    ensures Handle(Opening(), 1, Create).hub == AfterA()
  {
    DrawnCodes();
    assert FreshCode(map[], [1001, 1003]) == Some((CodeA, [1003]));
  }

  lemma StepB()
    ensures Handle(AfterA(), 2, [MsgJoinRoom, 4] + CodeA).hub == AfterB()
  {
    var data := [MsgJoinRoom, 4] + CodeA;
    assert JoinCode(data) == CodeA;
    assert [Player(1, false, true)] + [Player(2, false, false)] == AfterB().rooms[CodeA].players;
    var o := JoinRoomStep(AfterA(), 2, data);
    assert Handle(AfterA(), 2, data) == o;
    assert o.hub.rooms == AfterB().rooms;
    assert o.hub.sessions == AfterB().sessions;
  }

  lemma StepX()
    ensures Handle(AfterB(), 3, Create).hub == AfterX()
  {
    DrawnCodes();
    assert FreshCode(AfterB().rooms, [1003]) == Some((CodeX, []));
  }

  lemma StepB2()
    ensures Handle(AfterX(), 2, [MsgJoinRoom, 4] + CodeX).hub == Prelude()
  {
    var data := [MsgJoinRoom, 4] + CodeX;
    assert JoinCode(data) == CodeX;
    assert [Player(3, false, true)] + [Player(2, false, false)] == Prelude().rooms[CodeX].players;
    var o := JoinRoomStep(AfterX(), 2, data);
    assert Handle(AfterX(), 2, data) == o;
    assert o.hub.rooms == Prelude().rooms;
    assert o.hub.sessions == Prelude().sessions;
  }

  /** Each step keeps the invariant, so every hub of the run keeps it. */
  lemma RunConsistent()
    ensures Consistent(AfterA()) && Consistent(AfterB()) && Consistent(AfterX()) && Consistent(Prelude())
  {
    assert Consistent(Opening());
    StepA();
    HandleKeeps(Opening(), 1, Create);
    StepB();
    HandleKeeps(AfterA(), 2, [MsgJoinRoom, 4] + CodeA);
    StepX();
    HandleKeeps(AfterB(), 3, Create);
    StepB2();
    HandleKeeps(AfterX(), 2, [MsgJoinRoom, 4] + CodeX);
  }

  /** The run reaches Prelude() from sockets in no room, and Prelude() keeps the invariant. */
  lemma PreludeReached()
    ensures Handle(Handle(Handle(Handle(Opening(), 1, Create).hub, 2, [MsgJoinRoom, 4] + CodeA).hub,
                          3, Create).hub, 2, [MsgJoinRoom, 4] + CodeX).hub == Prelude()
    ensures Consistent(Prelude())
  {
    StepA();
    StepB();
    StepX();
    StepB2();
    RunConsistent();
  }

  /** A leaves: as written, B is marked host although its room is 1003. */
  function LeftAsWritten(): Hub {
    Hub(map[CodeA := Room(9, 9, None, [Player(2, false, true)], false),
            CodeX := Room(9, 9, None, [Player(3, false, true), Player(2, false, false)], false)],
        map[2 := Session(Some(CodeX), true), 3 := Session(Some(CodeX), true)], [])
  }

  /** A leaves: corrected, B stays a guest. */
  function LeftCorrected(): Hub {
    LeftAsWritten().(sessions := map[2 := Session(Some(CodeX), false), 3 := Session(Some(CodeX), true)])
  }

  /** What is left of room 1001 once A's entry goes. */
  lemma LeftOfA()
    ensures Cleared(Without(Prelude().rooms[CodeA].players, 1)) == [Player(2, false, false)]
  {
    var ps := Prelude().rooms[CodeA].players;
    var qs := Without(ps, 1);
    assert Player(2, false, false) in ps;
    assert forall p :: p in qs <==> p == Player(2, false, false);
    assert qs == [Player(2, false, false)];
  }

  lemma CloseWritten()
    ensures CloseStep(Prelude(), 1, true).hub == LeftAsWritten()
  {
    LeftOfA();
    var o := CloseStep(Prelude(), 1, true);
    assert [Player(2, false, false)][0 := Player(2, false, true)] == [Player(2, false, true)];
    assert o.hub.rooms == LeftAsWritten().rooms;
    assert o.hub.sessions == LeftAsWritten().sessions;
  }

  lemma CloseCorrected()
    ensures CloseStep(Prelude(), 1, false).hub == LeftCorrected()
  {
    LeftOfA();
    var o := CloseStep(Prelude(), 1, false);
    assert [Player(2, false, false)][0 := Player(2, false, true)] == [Player(2, false, true)];
    assert o.hub.rooms == LeftCorrected().rooms;
    assert o.hub.sessions == LeftCorrected().sessions;
  }

  /** As written, B is marked host but holds only the guest entry of its room 1003. */
  lemma HostMarkedAsWritten()
    ensures 2 in LeftAsWritten().sessions && LeftAsWritten().sessions[2].isHost
    ensures var ps := LeftAsWritten().rooms[CodeX].players;
      HoldsAs(ps, 2, false) && !HoldsAs(ps, 2, true)
    ensures !HostsSeated(LeftAsWritten())
  {
    var ps := LeftAsWritten().rooms[CodeX].players;
    assert ps[1] in ps;
  }

  /** B's MazeData, as written, stores B's maze in room 1003; corrected, it changes nothing. */
  lemma MazeFromGuest()
    ensures Handle(LeftAsWritten(), 2, [MsgMazeData, 0, 0]).hub.rooms[CodeX].mazeData == Some([MsgMazeData, 0, 0])
    ensures Handle(LeftCorrected(), 2, [MsgMazeData, 0, 0]).hub == LeftCorrected()
  {
    assert Handle(LeftAsWritten(), 2, [MsgMazeData, 0, 0]) == MazeDataStep(LeftAsWritten(), 2, [MsgMazeData, 0, 0]);
    assert Handle(LeftCorrected(), 2, [MsgMazeData, 0, 0]) == MazeDataStep(LeftCorrected(), 2, [MsgMazeData, 0, 0]);
  }

  /**
   * As written, the close handler marks B host when A leaves room 1001,
   * although B's room is 1003, where B is the guest: the invariant that a
   * socket marked host holds its room's host entry breaks, and B's
   * MazeData overwrites the maze of room 1003, which has none.  With the
   * corrected close handler B stays a guest and the same MazeData changes
   * nothing.
   */
  lemma HijackAsWritten()
    ensures Consistent(Prelude())
    ensures var written := CloseStep(Prelude(), 1, true).hub;
      !HostsSeated(written) && 2 in written.sessions && CodeX in written.rooms
      && !HoldsAs(written.rooms[CodeX].players, 2, true)
      && written.rooms[CodeX].mazeData == None
      && Handle(written, 2, [MsgMazeData, 0, 0]).hub.rooms[CodeX].mazeData == Some([MsgMazeData, 0, 0])
    ensures var corrected := CloseStep(Prelude(), 1, false).hub;
      2 in corrected.sessions && Handle(corrected, 2, [MsgMazeData, 0, 0]).hub == corrected
  {
    PreludeReached();
    CloseWritten();
    CloseCorrected();
    HostMarkedAsWritten();
    MazeFromGuest();
  }
}
