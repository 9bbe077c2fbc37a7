/**
 * The wire format shared by the game server and its clients: a frame is a
 * one-byte message type, a four-byte payload length in network (big-endian)
 * byte order, and then exactly that many payload bytes.
 */
module Protocol {
  import opened Options

  /** An octet on the wire (the source's `char` buffer elements, read as unsigned). */
  newtype Byte = x: int | 0 <= x < 0x100

  /** The message types, in declaration order; their tags are 1 through 25. */
  datatype MsgType =
    | Login | LoginOk | LoginFail
    | CreateRoom | CreateRoomOk | CreateRoomFail
    | GetRoomList | RoomList
    | JoinRoom | JoinRoomOk | JoinRoomFail
    | NewPlayerJoined | PlayerLeft
    | StartGame | GameStarted | GameStartFail
    | SubmitAnswers | VerificationStart | TimeUp | TimeLeft
    | SendVote | RoundEnd | LeaveRoom | HostLeft | GameEnd

  /** Every message type, in the order the enumeration declares them. */
  const AllTypes: seq<MsgType> := [
    Login, LoginOk, LoginFail,
    CreateRoom, CreateRoomOk, CreateRoomFail,
    GetRoomList, RoomList,
    JoinRoom, JoinRoomOk, JoinRoomFail,
    NewPlayerJoined, PlayerLeft,
    StartGame, GameStarted, GameStartFail,
    SubmitAnswers, VerificationStart, TimeUp, TimeLeft,
    SendVote, RoundEnd, LeaveRoom, HostLeft, GameEnd]

  /** The byte that stands for a message type on the wire. */
  function Tag(t: MsgType): (b: Byte)
    ensures 1 <= b <= 25
  {
    match t
    case Login => 1               case LoginOk => 2            case LoginFail => 3
    case CreateRoom => 4          case CreateRoomOk => 5       case CreateRoomFail => 6
    case GetRoomList => 7         case RoomList => 8
    case JoinRoom => 9            case JoinRoomOk => 10        case JoinRoomFail => 11
    case NewPlayerJoined => 12    case PlayerLeft => 13
    case StartGame => 14          case GameStarted => 15       case GameStartFail => 16
    case SubmitAnswers => 17      case VerificationStart => 18
    case TimeUp => 19             case TimeLeft => 20
    case SendVote => 21           case RoundEnd => 22          case LeaveRoom => 23
    case HostLeft => 24           case GameEnd => 25
  }

  /** The tags are the contiguous values 1..25, assigned in declaration order. */
  lemma TagsInDeclarationOrder()
    ensures |AllTypes| == 25
    ensures forall k :: 0 <= k < |AllTypes| ==> Tag(AllTypes[k]) as int == k + 1
  {
  }

  /** The message type a tag byte stands for, if any. */
  function FromTag(b: Byte): (r: Option<MsgType>)
    ensures r.Some? <==> 1 <= b <= 25
    ensures r.Some? ==> Tag(r.value) == b
  {
    TagsInDeclarationOrder();
    if 1 <= b <= 25 then Some(AllTypes[b as int - 1]) else None
  }

  /** Decoding a tag gives back the message type it was made from. */
  lemma FromTagOfTag(t: MsgType)
    ensures FromTag(Tag(t)) == Some(t)
  {
    TagsInDeclarationOrder();
  }

  /** `sizeof(MsgHeader)`: the header is packed, one type byte and four length bytes. */
  const HeaderSize: nat := 5

  /** One more than the largest value a `uint32_t` length field holds. */
  const LengthLimit: nat := 0x1_0000_0000

  /** `htonl`: a 32-bit value as four bytes, most significant first. */
  function BigEndian32(n: nat): (r: seq<Byte>)
    requires n < LengthLimit
    ensures |r| == 4
  {
    [(n / 0x100_0000) as Byte, (n / 0x1_0000 % 0x100) as Byte,
     (n / 0x100 % 0x100) as Byte, (n % 0x100) as Byte]
  }

  /** `ntohl`: the 32-bit value four bytes stand for, most significant first. */
  function ReadBigEndian32(b: seq<Byte>): (n: nat)
    requires |b| == 4
    ensures n < LengthLimit
  {
    b[0] as int * 0x100_0000 + b[1] as int * 0x1_0000 + b[2] as int * 0x100 + b[3] as int
  }

  /** Reading back the four bytes written for a value gives that value. */
  lemma ReadBigEndianOfBigEndian(n: nat)
    requires n < LengthLimit
    ensures ReadBigEndian32(BigEndian32(n)) == n
  {
    var a, d3 := n / 0x100, n % 0x100;
    var q, d2 := a / 0x100, a % 0x100;
    var c, d1 := q / 0x100, q % 0x100;
    assert n == a * 0x100 + d3;
    assert a == q * 0x100 + d2;
    assert q == c * 0x100 + d1;
    DivModUnique(n, 0x1_0000, q, d2 * 0x100 + d3);
    DivModUnique(n, 0x100_0000, c, d1 * 0x1_0000 + d2 * 0x100 + d3);
    var b := BigEndian32(n);
    assert b[0] as int == c && b[1] as int == d1 && b[2] as int == d2 && b[3] as int == d3;
  }

  /** Division by a power of 256 is determined by quotient and remainder. */
  lemma DivModUnique(n: int, m: int, q: int, r: int)
    requires m == 0x100 || m == 0x1_0000 || m == 0x100_0000
    requires 0 <= r < m && n == q * m + r
    ensures n / m == q && n % m == r
  {
    if m == 0x100 {
      assert n == q * 0x100 + r;
    } else if m == 0x1_0000 {
      assert n == q * 0x1_0000 + r;
    } else {
      assert n == q * 0x100_0000 + r;
    }
  }

  /** Writing the value of four bytes gives back those bytes. */
  lemma BigEndianOfReadBigEndian(b: seq<Byte>)
    requires |b| == 4
    ensures BigEndian32(ReadBigEndian32(b)) == b
  {
    var n := ReadBigEndian32(b);
    var b0, b1, b2, b3 := b[0] as int, b[1] as int, b[2] as int, b[3] as int;
    DivModUnique(n, 0x100_0000, b0, b1 * 0x1_0000 + b2 * 0x100 + b3);
    DivModUnique(n, 0x1_0000, b0 * 0x100 + b1, b2 * 0x100 + b3);
    DivModUnique(b0 * 0x100 + b1, 0x100, b0, b1);
    DivModUnique(n, 0x100, b0 * 0x1_0000 + b1 * 0x100 + b2, b3);
    DivModUnique(b0 * 0x1_0000 + b1 * 0x100 + b2, 0x100, b0 * 0x100 + b1, b2);
    var r := BigEndian32(n);
    assert r[0] == b[0] && r[1] == b[1] && r[2] == b[2] && r[3] == b[3];
  }

  /**
   * The frame `createMessage(t, d)` builds. The length field is a `uint32_t`,
   * so a payload of 2^32 bytes or more has its length truncated modulo 2^32.
   */
  function Frame(t: MsgType, d: seq<Byte>): seq<Byte>
  {
    [Tag(t)] + BigEndian32(|d| % LengthLimit) + d
  }

  /** The byte layout of a frame: tag, big-endian length, payload. */
  lemma FrameLayout(t: MsgType, d: seq<Byte>)
    requires |d| < LengthLimit
    ensures |Frame(t, d)| == HeaderSize + |d|
    ensures Frame(t, d)[0] == Tag(t)
    ensures Frame(t, d)[1] as int == |d| / 0x100_0000
    ensures Frame(t, d)[2] as int == |d| / 0x1_0000 % 0x100
    ensures Frame(t, d)[3] as int == |d| / 0x100 % 0x100
    ensures Frame(t, d)[4] as int == |d| % 0x100
    ensures ReadBigEndian32(Frame(t, d)[1..HeaderSize]) == |d|
    ensures Frame(t, d)[HeaderSize..] == d
  {
    var f := Frame(t, d);
    var h := BigEndian32(|d|);
    assert f[1..HeaderSize] == h;
    ReadBigEndianOfBigEndian(|d|);
    assert f[HeaderSize..] == d;
  }

  /** An empty payload gives a five-byte frame whose length field is zero. */
  lemma EmptyFrame(t: MsgType)
    ensures Frame(t, []) == [Tag(t), 0, 0, 0, 0]
  {
  }

  /**
   * `createMessage`: sizes a buffer for header and payload, writes the header
   * and copies the payload behind it.
   */
  method CreateMessage(t: MsgType, d: seq<Byte>) returns (buffer: array<Byte>)
    ensures fresh(buffer)
    ensures buffer[..] == Frame(t, d)
  {
    buffer := new Byte[HeaderSize + |d|];
    var len := BigEndian32(|d| % LengthLimit);
    buffer[0] := Tag(t);
    forall i | 0 <= i < 4 {
      buffer[1 + i] := len[i];
    }
    forall i | 0 <= i < |d| {
      buffer[HeaderSize + i] := d[i];
    }
    assert forall i :: 0 <= i < buffer.Length ==> buffer[..][i] == Frame(t, d)[i];
  }

  /**
   * The bytes of a `std::string` payload: one byte per character. The model's
   * strings come from received bytes, so their characters are below 256; a
   * wider character would be truncated to its low byte.
   */
  function StringBytes(s: string): (b: seq<Byte>)
    ensures |b| == |s|
    ensures forall i :: 0 <= i < |s| ==> b[i] as int == s[i] as int % 0x100
  {
    seq(|s|, i requires 0 <= i < |s| => (s[i] as int % 0x100) as Byte)
  }

  /** `std::string dataStr(body.begin(), body.end())`: one character per received byte. */
  function BytesString(b: seq<Byte>): (s: string)
    ensures |s| == |b|
    ensures forall i :: 0 <= i < |b| ==> s[i] as int == b[i] as int
  {
    seq(|b|, i requires 0 <= i < |b| => b[i] as int as char)
  }

  /** Received bytes turned into a string are sent back as the same bytes. */
  lemma StringBytesOfBytesString(b: seq<Byte>)
    ensures StringBytes(BytesString(b)) == b
  {
    var s := BytesString(b);
    assert forall i :: 0 <= i < |b| ==> StringBytes(s)[i] == b[i];
  }

  /** A string of characters below 256 survives the trip to bytes and back. */
  lemma BytesStringOfStringBytes(s: string)
    requires forall i :: 0 <= i < |s| ==> s[i] as int < 0x100
    ensures BytesString(StringBytes(s)) == s
  {
    var b := StringBytes(s);
    assert forall i :: 0 <= i < |s| ==> BytesString(b)[i] == s[i];
  }

  /** One frame taken off the front of a buffer, and what is left behind it. */
  datatype Decoded = Decoded(tag: Byte, body: seq<Byte>, rest: seq<Byte>)

  /**
   * One pass of the receive loop: `None` when fewer than a header's worth of
   * bytes, or fewer than the header plus the announced length, are buffered.
   * The tag byte is taken as it is; unknown tags are the dispatcher's concern.
   */
  function TryDecode(buf: seq<Byte>): (r: Option<Decoded>)
    ensures r.Some? ==> |r.value.rest| < |buf|
  {
    if |buf| < HeaderSize then None
    else
      var n := ReadBigEndian32(buf[1..HeaderSize]);
      if |buf| < HeaderSize + n then None
      else Some(Decoded(buf[0], buf[HeaderSize..HeaderSize + n], buf[HeaderSize + n..]))
  }

  /** A successful decode removes exactly one well-formed frame from the front. */
  lemma DecodeConsumesOneFrame(buf: seq<Byte>)
    requires TryDecode(buf).Some?
    ensures var x := TryDecode(buf).value;
      && FromTag(x.tag).Some? ==> buf == Frame(FromTag(x.tag).value, x.body) + x.rest
    ensures var x := TryDecode(buf).value;
      |buf| == HeaderSize + |x.body| + |x.rest| && buf[HeaderSize + |x.body|..] == x.rest
  {
    var x := TryDecode(buf).value;
    var n := ReadBigEndian32(buf[1..HeaderSize]);
    BigEndianOfReadBigEndian(buf[1..HeaderSize]);
    assert |x.body| == n;
    if FromTag(x.tag).Some? {
      var t := FromTag(x.tag).value;
      var header := buf[1..HeaderSize];
      assert buf == [buf[0]] + header + x.body + x.rest;
      assert Tag(t) == buf[0];
      assert |x.body| % LengthLimit == n;
      assert BigEndian32(|x.body| % LengthLimit) == header;
      assert Frame(t, x.body) == [buf[0]] + header + x.body;
    }
  }

  /** Round trip: decoding a frame followed by anything yields its tag and payload, and leaves the rest. */
  lemma DecodeFrame(t: MsgType, d: seq<Byte>, rest: seq<Byte>)
    requires |d| < LengthLimit
    ensures TryDecode(Frame(t, d) + rest) == Some(Decoded(Tag(t), d, rest))
  {
    var buf := Frame(t, d) + rest;
    FrameLayout(t, d);
    assert buf[1..HeaderSize] == Frame(t, d)[1..HeaderSize];
    assert buf[HeaderSize..HeaderSize + |d|] == d;
    assert buf[HeaderSize + |d|..] == rest;
  }

  /** Bytes received later never change a decode that already succeeded. */
  lemma DecodeIgnoresLaterBytes(buf: seq<Byte>, more: seq<Byte>)
    requires TryDecode(buf).Some?
    ensures var x := TryDecode(buf).value;
      TryDecode(buf + more) == Some(Decoded(x.tag, x.body, x.rest + more))
  {
    var n := ReadBigEndian32(buf[1..HeaderSize]);
    assert (buf + more)[1..HeaderSize] == buf[1..HeaderSize];
    assert (buf + more)[HeaderSize..HeaderSize + n] == buf[HeaderSize..HeaderSize + n];
    assert (buf + more)[HeaderSize + n..] == buf[HeaderSize + n..] + more;
  }

  /** A buffer the decoder declines holds no complete frame at its front. */
  lemma NoFrameWhenDeclined(buf: seq<Byte>, t: MsgType, d: seq<Byte>, rest: seq<Byte>)
    requires TryDecode(buf).None?
    requires |d| < LengthLimit
    ensures buf != Frame(t, d) + rest
  {
    if buf == Frame(t, d) + rest {
      DecodeFrame(t, d, rest);
    }
  }

  /** The frames a buffer holds, in order, and the incomplete tail behind them. */
  function Deframe(buf: seq<Byte>): (r: (seq<(Byte, seq<Byte>)>, seq<Byte>))
    ensures TryDecode(r.1).None?
    decreases |buf|
  {
    match TryDecode(buf)
    case None => ([], buf)
    case Some(x) =>
      var more := Deframe(x.rest);
      ([(x.tag, x.body)] + more.0, more.1)
  }

  /** Every successful decode of the framing loop over `buf`, in order. */
  function Pending(buf: seq<Byte>): (r: seq<Decoded>)
    ensures r == [] <==> TryDecode(buf).None?
    decreases |buf|
  {
    match TryDecode(buf)
    case None => []
    case Some(x) => [x] + Pending(x.rest)
  }

  lemma PendingFront(buf: seq<Byte>, x: Decoded)
    requires TryDecode(buf) == Some(x)
    ensures Pending(buf) == [x] + Pending(x.rest)
  {
  }

  /** The type byte and body of each decode. */
  function Contents(ds: seq<Decoded>): (r: seq<(Byte, seq<Byte>)>)
    ensures |r| == |ds| && forall k :: 0 <= k < |ds| ==> r[k] == (ds[k].tag, ds[k].body)
  {
    seq(|ds|, k requires 0 <= k < |ds| => (ds[k].tag, ds[k].body))
  }

  /** The decodes are the frames `Deframe` lists, and the last one leaves its tail. */
  lemma {:induction false} PendingDeframe(buf: seq<Byte>)
    ensures Deframe(buf).0 == Contents(Pending(buf))
    ensures Deframe(buf).1 == if Pending(buf) == [] then buf else Pending(buf)[|Pending(buf)| - 1].rest
    decreases |buf|
  {
    match TryDecode(buf)
    case None =>
    case Some(x) =>
      PendingDeframe(x.rest);
      var ps, fs := Pending(buf), Deframe(buf).0;
      assert ps == [x] + Pending(x.rest) && fs == [(x.tag, x.body)] + Deframe(x.rest).0;
      assert |fs| == |ps|;
      forall k | 0 <= k < |ps| ensures fs[k] == (ps[k].tag, ps[k].body) {
        if k > 0 {
          assert ps[k] == Pending(x.rest)[k - 1] && fs[k] == Deframe(x.rest).0[k - 1];
        }
      }
  }

  /** The bytes of a sequence of frames, one after another. */
  function Frames(fs: seq<(MsgType, seq<Byte>)>): seq<Byte>
  {
    if fs == [] then [] else Frame(fs[0].0, fs[0].1) + Frames(fs[1..])
  }

  /**
   * Round trip for a whole stream: frames sent back to back, followed by the
   * start of a frame that has not fully arrived, are received as exactly those
   * frames, in order, with the incomplete start left buffered.
   */
  lemma {:induction false} DeframeFrames(fs: seq<(MsgType, seq<Byte>)>, partial: seq<Byte>)
    requires forall k :: 0 <= k < |fs| ==> |fs[k].1| < LengthLimit
    requires TryDecode(partial).None?
    ensures Deframe(Frames(fs) + partial).1 == partial
    ensures |Deframe(Frames(fs) + partial).0| == |fs|
    ensures forall k :: 0 <= k < |fs| ==>
      Deframe(Frames(fs) + partial).0[k] == (Tag(fs[k].0), fs[k].1)
  {
    if fs != [] {
      var buf := Frames(fs) + partial;
      var tail := Frames(fs[1..]) + partial;
      assert buf == Frame(fs[0].0, fs[0].1) + tail;
      DecodeFrame(fs[0].0, fs[0].1, tail);
      DeframeFrames(fs[1..], partial);
      var r := Deframe(buf);
      assert r.0 == [(Tag(fs[0].0), fs[0].1)] + Deframe(tail).0;
      forall k | 0 <= k < |fs| ensures r.0[k] == (Tag(fs[k].0), fs[k].1) {
        if k > 0 {
          assert r.0[k] == Deframe(tail).0[k - 1];
        }
      }
    }
  }
}
