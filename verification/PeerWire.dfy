/** The peer messages of BEP 3: the fixed-size classes of BitTorrent/CszBitTorrent.h,
    CszReqCleBase.cpp and CszPiece.cpp, and the framing loop of CszSelectSwitch.cpp. */
module PeerWire {
  import opened Bytes
  import opened Network

  type uint16 = x: nat | x < 0x1_0000

  datatype Message =
    | KeepAlive
    | Choke
    | UnChoke
    | Interested
    | UnInterested
    | Have(index: int32)
    | BitField(bits: seq<byte>)
    | Request(index: int32, begin: int32, length: int32)
    | Piece(index: int32, begin: int32, slice: seq<byte>)
    | Cancle(index: int32, begin: int32, length: int32)
    | Port(port: uint16)

  /** What the source's senders build: a piece has an index and a begin that are not
      negative and a slice; no message outgrows its length prefix. */
  predicate Sendable(m: Message) {
    match m
    case BitField(bits) => 0 < |bits| < 0x7FFF_FFF0
    case Piece(index, begin, slice) => index >= 0 && begin >= 0 && 0 < |slice| < 0x7FFF_FFF0
    case _ => true
  }

  function Id(m: Message): byte
    requires m != KeepAlive
  {
    match m
    case Choke => 0
    case UnChoke => 1
    case Interested => 2
    case UnInterested => 3
    case Have(_) => 4
    case BitField(_) => 5
    case Request(_, _, _) => 6
    case Piece(_, _, _) => 7
    case Cancle(_, _, _) => 8
    case Port(_) => 9
  }

  function Body(m: Message): seq<byte> {
    match m
    case Have(index) => ToBytes(index)
    case BitField(bits) => bits
    case Request(index, begin, length) => ToBytes(index) + ToBytes(begin) + ToBytes(length)
    case Piece(index, begin, slice) => ToBytes(index) + ToBytes(begin) + slice
    case Cancle(index, begin, length) => ToBytes(index) + ToBytes(begin) + ToBytes(length)
    case Port(port) => [ToByte(port / 256), ToByte(port % 256)]
    case _ => []
  }

  /** BEP 3, peer messages: a four-byte length, then the id and the body. */
  function Encode(m: Message): seq<byte>
    requires Sendable(m)
  {
    if m == KeepAlive then ToBytes(0) else ToBytes(1 + |Body(m)|) + [Id(m)] + Body(m)
  }

  // The senders.

  /** Four bytes, all zero. */
  method BuildKeepAlive() returns (data: array<byte>)
    ensures data[..] == Encode(KeepAlive)
  {
    hide ToByte;
    data := new byte[4](_ => 0);
    assert ToByte(0) == 0 by {
      ZeroByte();
    }
    assert data[..] == [0, 0, 0, 0];
  }

  lemma ZeroByte()
    ensures ToByte(0) == 0
  {
  }

  /** Choke, UnChoke, Interested and UnInterested: a constructor and five bytes. */
  method BuildPlain(m: Message) returns (data: array<byte>)
    requires m in {Choke, UnChoke, Interested, UnInterested}
    ensures data[..] == Encode(m)
  {
    data := new byte[5](_ => 0);
    CopyInto(data, 0, ToBytes(1));
    data[4] := Id(m);
  }

  method BuildHave(index: int32) returns (data: array<byte>)
    ensures data[..] == Encode(Have(index))
  {
    data := new byte[9](_ => 0);
    CopyInto(data, 0, ToBytes(5));
    data[4] := 4;
    CopyInto(data, 5, ToBytes(index));
  }

  method BuildPort(port: uint16) returns (data: array<byte>)
    ensures data[..] == Encode(Port(port))
  {
    hide ToByte;
    data := new byte[7](_ => 0);
    CopyInto(data, 0, ToBytes(3));
    data[4] := 9;
    data[5], data[6] := ToByte(port / 256), ToByte(port % 256);
  }

  /** Request and Cancle share this. */
  class ReqCleBase {
    var data: array<byte>

    ghost predicate Valid()
      reads this, data
    {
      data.Length == 17 && data[..4] == ToBytes(13)
    }

    constructor (id: byte)
      ensures Valid() && data[4] == id && fresh(data)
    {
      data := new byte[17](_ => 0);
      new;
      CopyInto(data, 0, ToBytes(13));
      data[4] := id;
    }

    method SetParameter(index: int32, begin: int32, length: int32)
      requires Valid()
      modifies data
      ensures Valid() && data[..5] == old(data[..5])
      ensures data[5..] == ToBytes(index) + ToBytes(begin) + ToBytes(length)
    {
      CopyInto(data, 5, ToBytes(index));
      CopyInto(data, 9, ToBytes(begin));
      CopyInto(data, 13, ToBytes(length));
    }
  }

  /** Whatever was set before, the next SetParameter leaves a whole Request message. */
  method BuildRequest(request: ReqCleBase, index: int32, begin: int32, length: int32)
    requires request.Valid() && request.data[4] == 6
    modifies request.data
    ensures request.Valid() && request.data[4] == 6
    ensures request.data[..] == Encode(Request(index, begin, length))
  {
    request.SetParameter(index, begin, length);
    hide ToBytes, Encode;
    RequestBytes(request.data[..], index, begin, length);
  }

  /** And in a Cancle a whole Cancle message. */
  method BuildCancle(cancle: ReqCleBase, index: int32, begin: int32, length: int32)
    requires cancle.Valid() && cancle.data[4] == 8
    modifies cancle.data
    ensures cancle.Valid() && cancle.data[4] == 8
    ensures cancle.data[..] == Encode(Cancle(index, begin, length))
  {
    cancle.SetParameter(index, begin, length);
    hide ToBytes, Encode;
    RequestBytes(cancle.data[..], index, begin, length);
  }

  lemma RequestBytes(data: seq<byte>, index: int32, begin: int32, length: int32)
    requires |data| == 17 && data[..4] == ToBytes(13)
    requires data[5..] == ToBytes(index) + ToBytes(begin) + ToBytes(length)
    ensures data[4] == 6 ==> data == Encode(Request(index, begin, length))
    ensures data[4] == 8 ==> data == Encode(Cancle(index, begin, length))
  {
    hide ToBytes;
    assert data == data[..4] + [data[4]] + data[5..];
  }

  /** A Piece as its constructor leaves it: the id, and room for the three words. */
  const NEW_PIECE: seq<byte> := [0, 0, 0, 0, 7, 0, 0, 0, 0, 0, 0, 0, 0]

  class PieceMessage {
    var prefixAndSlice: seq<byte>

    ghost predicate Valid()
      reads this
    {
      |prefixAndSlice| >= 13 && prefixAndSlice[4] == 7
    }

    /** What earlier calls have left behind the three words. */
    function Slice(): seq<byte>
      requires |prefixAndSlice| >= 13
      reads this
    {
      prefixAndSlice[13..]
    }

    constructor ()
      ensures Valid() && Slice() == [] && prefixAndSlice == NEW_PIECE
    {
      prefixAndSlice := NEW_PIECE;
    }

    /** Piece::SetParameter: the new index and begin, and the slice behind what is there. */
    method SetParameter(index: int32, begin: int32, slice: seq<byte>)
      requires Valid() && |Slice()| + |slice| < 0x7FFF_FFF0
      modifies this
      ensures Valid()
      ensures if index < 0 || begin < 0 || slice == [] then prefixAndSlice == old(prefixAndSlice)
              else Slice() == old(Slice()) + slice && prefixAndSlice == Encode(Piece(index, begin, Slice()))
    {
      if index < 0 || begin < 0 || slice == [] {
        return;
      }
      hide ToBytes, Encode, PutWord;
      AssembledPiece(prefixAndSlice, index, begin, slice);
      prefixAndSlice := PutWord(prefixAndSlice, 5, ToBytes(index));
      prefixAndSlice := PutWord(prefixAndSlice, 9, ToBytes(begin));
      prefixAndSlice := prefixAndSlice + slice;
      prefixAndSlice := PutWord(prefixAndSlice, 0, ToBytes(|prefixAndSlice| - 4));
    }
  }

  /** The message is that of the slice alone if and only if nothing was set before. */
  method BuildPiece(piece: PieceMessage, index: int32, begin: int32, slice: seq<byte>)
    requires piece.Valid() && |piece.Slice()| + |slice| < 0x7FFF_FFF0
    requires Sendable(Piece(index, begin, slice))
    modifies piece
    ensures piece.Valid() && piece.Slice() == old(piece.Slice()) + slice
    ensures piece.prefixAndSlice == Encode(Piece(index, begin, piece.Slice()))
    ensures piece.prefixAndSlice == Encode(Piece(index, begin, slice)) <==> old(piece.Slice()) == []
  {
    hide Encode;
    AloneIffFirst(index, begin, piece.Slice(), slice);
    piece.SetParameter(index, begin, slice);
  }

  lemma AloneIffFirst(index: int32, begin: int32, before: seq<byte>, slice: seq<byte>)
    requires Sendable(Piece(index, begin, slice)) && |before| + |slice| < 0x7FFF_FFF0
    ensures Encode(Piece(index, begin, before + slice)) == Encode(Piece(index, begin, slice)) <==> before == []
  {
    if before == [] {
      assert before + slice == slice;
    } else {
      EncodedLength(Piece(index, begin, before + slice));
      EncodedLength(Piece(index, begin, slice));
    }
  }

  lemma EncodedLength(m: Message)
    requires Sendable(m)
    ensures |Encode(m)| == if m == KeepAlive then 4 else 5 + |Body(m)|
  {
  }

  /** Two slices of one byte set one after the other: the second message carries both. */
  method SetTwice() returns (piece: PieceMessage)
    ensures fresh(piece) && piece.Valid()
    ensures piece.prefixAndSlice == Encode(Piece(0, 1, [65, 66])) != Encode(Piece(0, 1, [66]))
  {
    hide Encode;
    piece := new PieceMessage();
    piece.SetParameter(0, 0, [65]);
    assert piece.Slice() == [65];
    BuildPiece(piece, 0, 1, [66]);
    assert piece.Slice() == [65, 66];
  }

  /** Four bytes stored over the four at `at`. */
  function PutWord(s: seq<byte>, at: nat, w: seq<byte>): (r: seq<byte>)
    requires at + 4 <= |s| && |w| == 4
    ensures |r| == |s|
  {
    s[..at] + w + s[at + 4..]
  }

  lemma ThreePuts(s: seq<byte>, a: seq<byte>, b: seq<byte>, c: seq<byte>, slice: seq<byte>)
    requires |a| == |b| == |c| == 4 && |s| >= 13
    ensures PutWord(PutWord(PutWord(s, 5, a), 9, b) + slice, 0, c) == c + [s[4]] + (a + b + (s[13..] + slice))
  {
    var x := PutWord(s, 5, a);
    assert x == s[..5] + a + s[9..];
    var y := PutWord(x, 9, b);
    assert y == s[..5] + a + b + s[13..];
  }

  lemma AssembledPiece(s: seq<byte>, index: int32, begin: int32, slice: seq<byte>)
    requires |s| >= 13 && s[4] == 7 && Sendable(Piece(index, begin, s[13..] + slice))
    ensures PutWord(PutWord(PutWord(s, 5, ToBytes(index)), 9, ToBytes(begin)) + slice, 0, ToBytes(|s| + |slice| - 4))
         == Encode(Piece(index, begin, s[13..] + slice))
    ensures var e := Encode(Piece(index, begin, s[13..] + slice));
            |e| >= 13 && e[4] == 7 && e[13..] == s[13..] + slice
  {
    hide ToBytes, PutWord;
    ThreePuts(s, ToBytes(index), ToBytes(begin), ToBytes(|s| + |slice| - 4), slice);
  }

  // The receiver.

  /** What the framing loop hands on: the id and the payload of a message, or a keep-alive. */
  datatype Frame = Alive | Frame(id: byte, payload: seq<byte>)

  datatype Received = Got(frame: Frame, rest: seq<byte>) | Closed

  /** One turn of the loop on a socket with s still to read. The ids 0 to 3 are taken
      without a payload whatever their length says; a short read closes the socket. */
  function NextFrame(s: seq<byte>): Received {
    if |s| < 4 then Closed
    else
      var len := FromBytes(s[..4]);
      if len == 0 then Got(Alive, s[4..])
      else if |s| < 5 then Closed
      else if s[4] in {0, 1, 2, 3} then Got(Frame(s[4], []), s[5..])
      else if len - 1 <= 0 || |s| < 4 + len then Closed
      else Got(Frame(s[4], s[5..4 + len]), s[4 + len..])
  }

  function FrameOf(m: Message): Frame { if m == KeepAlive then Alive else Frame(Id(m), Body(m)) }

  datatype Option<T> = None | Some(value: T)

  /** The field extraction of DHave, DBitField, DRequest and DPiece; DCancle and DPort take
      no fields, and an id above 9 is dropped. */
  function Interpret(f: Frame): Option<Message> {
    if f == Alive then Some(KeepAlive)
    else if f.id == 0 then Some(Choke)
    else if f.id == 1 then Some(UnChoke)
    else if f.id == 2 then Some(Interested)
    else if f.id == 3 then Some(UnInterested)
    else if f.id == 4 && |f.payload| >= 4 then Some(Have(FromBytes(f.payload[..4])))
    else if f.id == 5 then Some(BitField(f.payload))
    else if f.id in {6, 8} && |f.payload| >= 12 then
      var index, begin, length := FromBytes(f.payload[..4]), FromBytes(f.payload[4..8]), FromBytes(f.payload[8..12]);
      Some(if f.id == 6 then Request(index, begin, length) else Cancle(index, begin, length))
    else if f.id == 7 && |f.payload| >= 8 then
      Some(Piece(FromBytes(f.payload[..4]), FromBytes(f.payload[4..8]), f.payload[8..]))
    else if f.id == 9 && |f.payload| >= 2 then
      Some(Port(Val(f.payload[0]) * 256 + Val(f.payload[1])))
    else None
  }

  /** Fields are read wherever the payload is long enough for them, and what is behind them is
      ignored, but for the slice of a piece and the bits of a field. */
  lemma FieldsAreRead(id: byte, payload: seq<byte>)
    ensures Interpret(Frame(id, payload)) == None <==>
            (id == 4 && |payload| < 4) || (id == 6 && |payload| < 12) || (id == 7 && |payload| < 8) ||
            (id == 8 && |payload| < 12) || (id == 9 && |payload| < 2) || id > 9
    ensures id in {4, 6, 8, 9} && Interpret(Frame(id, payload)) != None ==>
      forall more :: Interpret(Frame(id, payload + more)) == Interpret(Frame(id, payload))
  {
    hide FromBytes, Val;
    forall more: seq<byte>
      ensures |payload| >= 4 ==> (payload + more)[..4] == payload[..4]
      ensures |payload| >= 12 ==> (payload + more)[4..8] == payload[4..8] && (payload + more)[8..12] == payload[8..12]
    {
    }
  }

  lemma FrameAt(s: seq<byte>, id: byte, b: seq<byte>, rest: seq<byte>)
    requires |b| < 0x7FFF_FFFF && s == ToBytes(1 + |b|) + [id] + b + rest
    requires id in {0, 1, 2, 3} <==> b == []
    ensures NextFrame(s) == Got(Frame(id, b), rest)
  {
    FromBytesOfToBytes(1 + |b|);
    hide ToBytes, FromBytes;
    assert s[..4] == ToBytes(1 + |b|);
    assert s[4] == id;
    assert s[5..5 + |b|] == b && s[5 + |b|..] == rest;
  }

  lemma FrameRoundTrip(m: Message, rest: seq<byte>)
    requires Sendable(m)
    ensures NextFrame(Encode(m) + rest) == Got(FrameOf(m), rest)
  {
    if m == KeepAlive {
      FromBytesOfToBytes(0);
      var s := Encode(m) + rest;
      assert s[..4] == ToBytes(0) && s[4..] == rest;
      hide ToBytes, FromBytes;
    } else {
      BodyShape(m);
      BodyLength(m);
      hide ToBytes, NextFrame, Body, Id;
      FrameAt(Encode(m) + rest, Id(m), Body(m), rest);
    }
  }

  lemma BodyLength(m: Message)
    requires Sendable(m)
    ensures |Body(m)| < 0x7FFF_FFFF
  {
  }

  lemma BodyShape(m: Message)
    requires Sendable(m) && m != KeepAlive
    ensures Id(m) in {0, 1, 2, 3} <==> Body(m) == []
  {
  }

  lemma WordsAt(a: int32, b: int32, c: int32, tail: seq<byte>)
    ensures FromBytes((ToBytes(a) + ToBytes(b) + tail)[..4]) == a
    ensures FromBytes((ToBytes(a) + ToBytes(b) + tail)[4..8]) == b
    ensures (ToBytes(a) + ToBytes(b) + tail)[8..] == tail
    ensures FromBytes((ToBytes(a) + ToBytes(b) + ToBytes(c))[8..12]) == c
  {
    FromBytesOfToBytes(a);
    FromBytesOfToBytes(b);
    FromBytesOfToBytes(c);
    hide ToBytes, FromBytes;
    assert (ToBytes(a) + ToBytes(b) + tail)[..4] == ToBytes(a);
    assert (ToBytes(a) + ToBytes(b) + tail)[4..8] == ToBytes(b);
    assert (ToBytes(a) + ToBytes(b) + ToBytes(c))[8..12] == ToBytes(c);
  }

  /** The handlers recover every field: the big-endian extraction inverts SetParameter and
      a piece's slice comes back whole. */
  lemma FieldsRoundTrip(m: Message)
    requires Sendable(m)
    ensures Interpret(FrameOf(m)) == Some(m)
  {
    hide ToBytes, FromBytes, ToByte, Val;
    match m
    case Have(index) =>
      FromBytesOfToBytes(index);
      assert ToBytes(index)[..4] == ToBytes(index);
    case Request(index, begin, length) =>
      WordsAt(index, begin, length, ToBytes(length));
    case Cancle(index, begin, length) =>
      WordsAt(index, begin, length, ToBytes(length));
    case Piece(index, begin, slice) =>
      WordsAt(index, begin, 0, slice);
    case Port(port) =>
      ByteOfVal(port / 256);
      ByteOfVal(port % 256);
    case _ =>
  }

  /** The framing loop stays in step with the length prefix exactly when a message of the
      ids 0 to 3 has length 1. */
  lemma InStepWithPrefix(s: seq<byte>)
    requires NextFrame(s).Got?
    ensures |NextFrame(s).rest| < |s|
    ensures var len := FromBytes(s[..4]);
            |s| - |NextFrame(s).rest| == 4 + len <==> len == 0 || s[4] !in {0, 1, 2, 3} || len == 1
  {
    hide FromBytes;
  }

  /** A choke message that announces one byte of payload: the byte is taken for the start of the
      next length. */
  lemma OutOfStep()
    ensures NextFrame([0, 0, 0, 2, 0, 9]) == Got(Frame(0, []), [9])
  {
    var s: seq<byte> := [0, 0, 0, 2, 0, 9];
    SmallLength(s[..4]);
    hide FromBytes;
    assert s[5..] == [9];
  }

  lemma SmallLength(s: seq<byte>)
    requires s == [0, 0, 0, 2]
    ensures FromBytes(s) == 2
  {
  }

  function EncodeAll(ms: seq<Message>): seq<byte>
    requires forall k :: 0 <= k < |ms| ==> Sendable(ms[k])
  {
    if |ms| == 0 then [] else Encode(ms[0]) + EncodeAll(ms[1..])
  }

  function FramesOf(ms: seq<Message>): (fs: seq<Frame>)
    ensures |fs| == |ms|
  {
    seq(|ms|, (k: nat) requires k < |ms| => FrameOf(ms[k]))
  }

  /** The frames a whole stream gives, and what is left if a turn closes the socket. */
  datatype Run = Run(frames: seq<Frame>, left: seq<byte>)

  function Receive(s: seq<byte>): Run
    decreases |s|
  {
    if s == [] then Run([], [])
    else match NextFrame(s)
      case Closed => Run([], s)
      case Got(f, rest) =>
        InStepWithPrefix(s);
        var r := Receive(rest);
        Run([f] + r.frames, r.left)
  }

  /** Any sequence of sent messages comes out of the framing loop as the same ids and
      payloads, with no byte left over. */
  lemma {:induction false} WireRoundTrip(ms: seq<Message>)
    requires forall k :: 0 <= k < |ms| ==> Sendable(ms[k])
    ensures Receive(EncodeAll(ms)) == Run(FramesOf(ms), [])
    ensures forall k :: 0 <= k < |ms| ==> Interpret(FramesOf(ms)[k]) == Some(ms[k])
    decreases |ms|
  {
    AllInterpreted(ms);
    FramesSplit(ms);
    if |ms| == 0 {
    } else {
      var rest := EncodeAll(ms[1..]);
      WireRoundTrip(ms[1..]);
      FrameRoundTrip(ms[0], rest);
      EncodeNonempty(ms[0]);
      assert EncodeAll(ms) == Encode(ms[0]) + rest;
      hide Encode, EncodeAll, FramesOf, FrameOf, NextFrame, Interpret, Sendable;
      ReceiveFirst(Encode(ms[0]) + rest, FrameOf(ms[0]), rest);
    }
  }

  lemma ReceiveFirst(s: seq<byte>, f: Frame, rest: seq<byte>)
    requires s != [] && NextFrame(s) == Got(f, rest)
    ensures |rest| < |s| && Receive(s) == Run([f] + Receive(rest).frames, Receive(rest).left)
  {
    hide NextFrame;
    InStepWithPrefix(s);
  }

  lemma FramesSplit(ms: seq<Message>)
    ensures FramesOf(ms) == if |ms| == 0 then [] else [FrameOf(ms[0])] + FramesOf(ms[1..])
  {
    hide FrameOf;
  }

  lemma AllInterpreted(ms: seq<Message>)
    requires forall k :: 0 <= k < |ms| ==> Sendable(ms[k])
    ensures forall k :: 0 <= k < |ms| ==> Interpret(FramesOf(ms)[k]) == Some(ms[k])
  {
    hide Interpret, FrameOf, Sendable;
    forall k | 0 <= k < |ms|
      ensures Interpret(FramesOf(ms)[k]) == Some(ms[k])
    {
      FieldsRoundTrip(ms[k]);
    }
  }

  lemma EncodeNonempty(m: Message)
    requires Sendable(m)
    ensures Encode(m) != []
  {
  }

  /** A connected socket with everything its peer sent. */
  class Socket {
    var unread: seq<byte>

    /** recv of up to n bytes; fewer only when there are no more. */
    method Recv(n: nat) returns (data: seq<byte>)
      modifies this
      ensures data == old(unread)[..if n <= |old(unread)| then n else |old(unread)|]
      ensures unread == old(unread)[|data|..]
    {
      var k := if n <= |unread| then n else |unread|;
      data, unread := unread[..k], unread[k..];
    }
  }

  /** The body of the event loop for one readable socket. */
  method ReceiveFrame(socket: Socket) returns (frame: Frame, open: bool)
    modifies socket
    ensures open <==> NextFrame(old(socket.unread)).Got?
    ensures open ==> Got(frame, socket.unread) == NextFrame(old(socket.unread))
  {
    hide FromBytes;
    frame := Alive;
    ghost var s := socket.unread;
    var prefix := socket.Recv(4);
    if |prefix| != 4 {
      return Alive, false;
    }
    var len: int := FromBytes(prefix);
    if len == 0 {
      return Alive, true;
    }
    var ids := socket.Recv(1);
    if |ids| != 1 {
      return Alive, false;
    }
    assert ids[0] == s[4] && socket.unread == s[5..];
    var id := ids[0];
    if id in {0, 1, 2, 3} {
      return Frame(id, []), true;
    }
    len := len - 1;
    if len <= 0 {
      return Alive, false;
    }
    var payload := socket.Recv(len);
    if |payload| != len {
      return Alive, false;
    }
    assert payload == s[5..5 + len] && socket.unread == s[5 + len..];
    return Frame(id, payload), true;
  }

  /** The loop over the events of one socket, until its input ends or it is closed. */
  method ReceiveAll(socket: Socket) returns (frames: seq<Frame>)
    modifies socket
    ensures frames == Receive(old(socket.unread)).frames
  {
    hide NextFrame;
    frames := [];
    ghost var s := socket.unread;
    while socket.unread != []
      invariant frames + Receive(socket.unread).frames == Receive(s).frames
      decreases |socket.unread|
    {
      var before := socket.unread;
      var frame, open := ReceiveFrame(socket);
      if !open {
        break;
      }
      InStepWithPrefix(before);
      frames := frames + [frame];
    }
  }
}
