/**
 * The wire format shared by the game client and the relay server.
 *
 * Every message travels as a frame: a 16-bit little-endian length followed
 * by that many payload bytes.  A receiver appends what the socket gives it
 * to a buffer and takes complete frames off its front, in order; an
 * incomplete tail waits for more bytes.
 */
module Wire {

  type Byte = b: int | 0 <= b < 256

  /* The first payload byte names the message (NetMessageType, MessageType). */
  const MsgConnect: Byte := 1
  const MsgConnectAck: Byte := 2
  const MsgDisconnect: Byte := 3
  const MsgCreateRoom: Byte := 4
  const MsgJoinRoom: Byte := 5
  const MsgRoomCreated: Byte := 6
  const MsgRoomJoined: Byte := 7
  const MsgRoomError: Byte := 8
  const MsgGameStart: Byte := 9
  const MsgPlayerUpdate: Byte := 10
  const MsgPlayerShoot: Byte := 11
  const MsgMazeData: Byte := 12
  const MsgRequestMaze: Byte := 13
  const MsgReachExit: Byte := 14
  const MsgGameWin: Byte := 15
  const MsgGameResult: Byte := 16
  const MsgRestartRequest: Byte := 17
  const MsgNpcActivate: Byte := 18
  const MsgNpcUpdate: Byte := 19
  const MsgNpcShoot: Byte := 20
  const MsgNpcDamage: Byte := 21
  const MsgPlayerLeft: Byte := 22

  /** The bytes of a text, one per character (static_cast<uint8_t>). */
  function Bytes(s: string): (b: seq<Byte>)
    ensures |b| == |s|
  {
    seq(|s|, i requires 0 <= i < |s| => (s[i] as int) % 256)
  }

  /** The text of some bytes, one character per byte (std::string over a byte range). */
  function Text(b: seq<Byte>): (s: string)
    ensures |s| == |b|
  {
    seq(|b|, i requires 0 <= i < |b| => b[i] as char)
  }

  /** A text of one-byte characters. */
  predicate Narrow(s: string) {
    forall i :: 0 <= i < |s| ==> (s[i] as int) < 256
  }

  /** Bytes turned into text turn back into the same bytes, and a one-byte text survives the trip the other way. */
  lemma TextRoundTrip(b: seq<Byte>, s: string)
    ensures Bytes(Text(b)) == b && Narrow(Text(b))
    ensures Narrow(s) ==> Text(Bytes(s)) == s
  {
  }

  /** The low 16 bits of n, least significant byte first (uint16_t cast, & 0xFF, >> 8). */
  function U16(n: int): (b: seq<Byte>)
    ensures |b| == 2
  {
    [n % 256, (n / 256) % 256]
  }

  /** A 16-bit little-endian field read at offset i. */
  function ReadU16(b: seq<Byte>, i: nat): (n: int)
    requires i + 1 < |b|
    ensures 0 <= n < 65536
  {
    b[i] as int + 256 * (b[i + 1] as int)
  }

  /** Writing a number and reading it back gives its low 16 bits. */
  lemma {:induction false} U16RoundTrip(n: int)
    ensures ReadU16(U16(n), 0) == n % 65536
    ensures 0 <= n < 65536 ==> ReadU16(U16(n), 0) == n
  {
    var q, r := n / 256, n % 256;
    assert n == 256 * q + r;
    var q2, r2 := q / 256, q % 256;
    assert q == 256 * q2 + r2;
    assert n == 65536 * q2 + (256 * r2 + r);
    assert 0 <= 256 * r2 + r < 65536;
  }

  /** Two bytes are the encoding of the field they hold. */
  lemma {:induction false} U16OfRead(b: seq<Byte>, i: nat)
    requires i + 1 < |b|
    ensures U16(ReadU16(b, i)) == b[i..i + 2]
  {
    var n := ReadU16(b, i);
    assert n % 256 == b[i];
    assert n / 256 == b[i + 1];
  }

  /** A room reply (RoomCreated, RoomJoined, RoomError): the type, the text length as one byte, and the text. */
  function RoomReply(t: Byte, text: seq<Byte>): seq<Byte> {
    [t, |text| % 256] + text
  }

  /** sendPacket: the payload behind its length, which wraps at 65536. */
  function Frame(data: seq<Byte>): (f: seq<Byte>) {
    U16(|data|) + data
  }

  /** A buffer that holds no complete frame: less than a length, or less than the length announces. */
  predicate Incomplete(buf: seq<Byte>) {
    |buf| < 2 || |buf| < 2 + ReadU16(buf, 0)
  }

  /** The payloads of the complete frames at the front of buf, in order. */
  function Messages(buf: seq<Byte>): (ms: seq<seq<Byte>>)
    decreases |buf|
  {
    if Incomplete(buf) then []
    else [buf[2..2 + ReadU16(buf, 0)]] + Messages(buf[2 + ReadU16(buf, 0)..])
  }

  /** What is left of buf once its complete frames are taken off. */
  function Remainder(buf: seq<Byte>): (r: seq<Byte>)
    decreases |buf|
  {
    if Incomplete(buf) then buf else Remainder(buf[2 + ReadU16(buf, 0)..])
  }

  /** Every payload a frame can carry. */
  predicate Framable(ms: seq<seq<Byte>>) {
    forall k :: 0 <= k < |ms| ==> |ms[k]| < 65536
  }

  /** The frames of a run of payloads, back to back. */
  function Framed(ms: seq<seq<Byte>>): (b: seq<Byte>) {
    if ms == [] then [] else Frame(ms[0]) + Framed(ms[1..])
  }

  /** Taking one frame off the front: the step of both receive loops. */
  lemma {:induction false} TakeFrame(buf: seq<Byte>)
    requires !Incomplete(buf)
    ensures Messages(buf) == [buf[2..2 + ReadU16(buf, 0)]] + Messages(buf[2 + ReadU16(buf, 0)..])
    ensures Remainder(buf) == Remainder(buf[2 + ReadU16(buf, 0)..])
  {
  }

  /** What is left never holds a complete frame. */
  lemma {:induction false} RemainderIncomplete(buf: seq<Byte>)
    ensures Incomplete(Remainder(buf))
    decreases |buf|
  {
    if !Incomplete(buf) {
      RemainderIncomplete(buf[2 + ReadU16(buf, 0)..]);
    }
  }

  /** A frame at the front of a buffer is read back as that frame. */
  lemma {:induction false} FrontFrame(m: seq<Byte>, rest: seq<Byte>)
    requires |m| < 65536
    ensures !Incomplete(Frame(m) + rest) && ReadU16(Frame(m) + rest, 0) == |m|
    ensures (Frame(m) + rest)[2..2 + |m|] == m && (Frame(m) + rest)[2 + |m|..] == rest
  {
    var buf := Frame(m) + rest;
    U16RoundTrip(|m|);
    assert buf[0] == U16(|m|)[0] && buf[1] == U16(|m|)[1];
    assert buf[2..] == m + rest;
  }

  /** A buffer with a complete frame at its front is that frame followed by the rest. */
  lemma {:induction false} FrameOfFront(buf: seq<Byte>)
    requires !Incomplete(buf)
    ensures buf == Frame(buf[2..2 + ReadU16(buf, 0)]) + buf[2 + ReadU16(buf, 0)..]
  {
    var n := ReadU16(buf, 0);
    U16OfRead(buf, 0);
    assert buf == buf[..2] + buf[2..2 + n] + buf[2 + n..];
  }

  /** The buffer is exactly its complete frames followed by what is left. */
  lemma {:induction false} Reassembly(buf: seq<Byte>)
    ensures Framable(Messages(buf))
    ensures Framed(Messages(buf)) + Remainder(buf) == buf
    decreases |buf|
  {
    if !Incomplete(buf) {
      var n := ReadU16(buf, 0);
      var m, rest := buf[2..2 + n], buf[2 + n..];
      Reassembly(rest);
      FrameOfFront(buf);
      TakeFrame(buf);
      JoinFront(buf, m, rest, Messages(buf), Messages(rest), Remainder(rest));
    }
  }

  /** One frame in front of a reassembled rest reassembles the whole. */
  lemma JoinFront(buf: seq<Byte>, m: seq<Byte>, rest: seq<Byte>, ms: seq<seq<Byte>>, rs: seq<seq<Byte>>,
                  tail: seq<Byte>)
    requires |m| < 65536 && buf == Frame(m) + rest && ms == [m] + rs
    requires Framable(rs) && Framed(rs) + tail == rest
    ensures Framable(ms) && Framed(ms) + tail == buf
  {
    assert ms[0] == m && ms[1..] == rs;
    assert Framed(ms) == Frame(m) + Framed(rs);
    forall k | 0 <= k < |ms| ensures |ms[k]| < 65536 {
      if k > 0 {
        assert ms[k] == rs[k - 1];
      }
    }
  }

  /**
   * Frames put back to back, then any incomplete tail, come apart into
   * the same payloads and the same tail.
   */
  lemma {:induction false} SplitFramed(ms: seq<seq<Byte>>, tail: seq<Byte>)
    requires Framable(ms) && Incomplete(tail)
    ensures Messages(Framed(ms) + tail) == ms
    ensures Remainder(Framed(ms) + tail) == tail
    decreases |ms|
  {
    if ms != [] {
      var m := ms[0];
      var rest := Framed(ms[1..]) + tail;
      assert Framed(ms) + tail == Frame(m) + rest;
      FrontFrame(m, rest);
      SplitFramed(ms[1..], tail);
      assert [m] + ms[1..] == ms;
    }
  }

  /** Two frames in one buffer deliver the first payload, then the second, and leave nothing. */
  lemma TwoFrames(a: seq<Byte>, b: seq<Byte>)
    requires |a| < 65536 && |b| < 65536
    ensures Messages(Frame(a) + Frame(b)) == [a, b]
    ensures Remainder(Frame(a) + Frame(b)) == []
  {
    assert Framed([a, b]) == Frame(a) + Frame(b) by {
      assert [a, b][1..] == [b];
      assert Framed([b]) == Frame(b) + Framed([]);
    }
    SplitFramed([a, b], []);
    assert Framed([a, b]) + [] == Frame(a) + Frame(b);
  }

  /**
   * How the bytes are cut into socket reads does not matter: appending a
   * read to a buffer and taking its frames gives, after the frames already
   * taken, the frames of the old remainder followed by the read.
   */
  lemma {:induction false} SplitAppend(buf: seq<Byte>, more: seq<Byte>)
    ensures Messages(buf + more) == Messages(buf) + Messages(Remainder(buf) + more)
    ensures Remainder(buf + more) == Remainder(Remainder(buf) + more)
    decreases |buf|
  {
    if !Incomplete(buf) {
      var n := ReadU16(buf, 0);
      var b := buf + more;
      assert b[0] == buf[0] && b[1] == buf[1];
      assert !Incomplete(b) && ReadU16(b, 0) == n;
      assert b[2..2 + n] == buf[2..2 + n];
      assert b[2 + n..] == buf[2 + n..] + more;
      SplitAppend(buf[2 + n..], more);
    }
  }
}
