/** The peer messages, their serialization, and the framing of a stream of them. */
module Messages {
  import opened Bytes
  import opened Serialization

  datatype Message =
    | KeepAlive
    | Choke
    | Unchoke
    | Interested
    | NotInterested
    | Have(index: uint32)
    | BitField(bits: seq<bool>)
    | Request(index: uint32, begin: uint32, length: uint32)
    | Piece(index: uint32, begin: uint32, block: Bytes)
    | Cancel(index: uint32, begin: uint32, length: uint32)

  /** Bit vectors are written with a loop over a 32-bit signed index. */
  const MAX_BITS: nat := 0x7fff_ffff

  /** The number of bits in a received bit field of n bytes is computed in 32 bits: so many bytes are left. */
  function BytesLeft(n: nat): (left: nat)
    ensures n < 0x2000_0000 ==> left == n
  {
    n % 0x2000_0000
  }

  /** And so many of them can be indexed with a signed index. */
  const MAX_BYTES: nat := 0x1000_0000

  /** A frame is at most this long, so that its 32-bit length plus four does not wrap around. */
  const MAX_LENGTH: nat := 0xffff_fffb

  ghost predicate Sendable(m: Message) {
    match m
    case BitField(bits) => |bits| <= MAX_BITS
    case Piece(_, _, block) => 9 + |block| <= MAX_LENGTH
    case _ => true
  }

  /** The length prefix that the constructors compute. */
  function Length(m: Message): nat {
    match m
    case KeepAlive => 0
    case Have(_) => 5
    case BitField(bits) => 1 + |bits| / 8 + (if |bits| % 8 > 0 then 1 else 0)
    case Request(_, _, _) => 13
    case Piece(_, _, block) => 9 + |block|
    case Cancel(_, _, _) => 13
    case _ => 1
  }

  function Id(m: Message): Byte
    requires !m.KeepAlive?
  {
    match m
    case Choke => 0
    case Unchoke => 1
    case Interested => 2
    case NotInterested => 3
    case Have(_) => 4
    case BitField(_) => 5
    case Request(_, _, _) => 6
    case Piece(_, _, _) => 7
    case Cancel(_, _, _) => 8
  }

  /** What follows the id. */
  function Payload(m: Message): Bytes {
    match m
    case Have(index) => BigEndian(index, 4)
    case BitField(bits) => Pack(bits)
    case Request(index, begin, length) => BigEndian(index, 4) + BigEndian(begin, 4) + BigEndian(length, 4)
    case Piece(index, begin, block) => BigEndian(index, 4) + BigEndian(begin, 4) + block
    case Cancel(index, begin, length) => BigEndian(index, 4) + BigEndian(begin, 4) + BigEndian(length, 4)
    case _ => []
  }

  /** A message on the wire (BEP 3, "peer messages"). */
  function Encode(m: Message): Bytes {
    if m.KeepAlive? then BigEndian(0, 4)
    else BigEndian(Length(m), 4) + [Id(m)] + Payload(m)
  }

  function EncodeAll(ms: seq<Message>): Bytes {
    if ms == [] then [] else Encode(ms[0]) + EncodeAll(ms[1..])
  }

  /** The length prefix counts exactly the bytes that follow it. */
  lemma LengthPrefix(m: Message)
    requires Sendable(m)
    ensures |Encode(m)| == 4 + Length(m)
    ensures Length(m) < U32 && FromBigEndian(Encode(m)[..4]) == Length(m)
  {
    Pow256Values();
    BigEndianValue(Length(m), 4);
    assert Encode(m)[..4] == BigEndian(Length(m), 4);
  }

  // ---------------------------------------------------------------- the wire, byte by byte

  /** BEP 3: the messages that have no payload, and the one with a single number. */
  lemma {:induction false} ShortOnTheWire(index: uint32)
    ensures Encode(KeepAlive) == [0, 0, 0, 0]
    ensures Encode(Choke) == [0, 0, 0, 1, 0] && Encode(Unchoke) == [0, 0, 0, 1, 1]
    ensures Encode(Interested) == [0, 0, 0, 1, 2] && Encode(NotInterested) == [0, 0, 0, 1, 3]
    ensures Encode(Have(index)) ==
            [0, 0, 0, 5, 4, index / 0x100_0000, index / 0x1_0000 % 256, index / 0x100 % 256, index % 256]
  {
    hide BigEndian;
    BigEndian4(0);
    BigEndian4(1);
    BigEndian4(5);
    BigEndian4(index);
  }

  /** A request and its cancellation: index, begin and length, each most significant byte first. */
  lemma {:induction false} RequestOnTheWire(index: uint32, begin: uint32, length: uint32)
    ensures Encode(Request(index, begin, length)) ==
            [0, 0, 0, 13, 6, index / 0x100_0000, index / 0x1_0000 % 256, index / 0x100 % 256, index % 256,
             begin / 0x100_0000, begin / 0x1_0000 % 256, begin / 0x100 % 256, begin % 256,
             length / 0x100_0000, length / 0x1_0000 % 256, length / 0x100 % 256, length % 256]
    ensures Encode(Cancel(index, begin, length)) == Encode(Request(index, begin, length))[4 := 8]
  {
    hide BigEndian;
    BigEndian4(13);
    BigEndian4(index);
    BigEndian4(begin);
    BigEndian4(length);
  }

  /** A block, and a bit field, whose bits are packed (see PackedBits). */
  lemma {:induction false} BlockOnTheWire(index: uint32, begin: uint32, block: Bytes, bits: seq<bool>)
    requires 9 + |block| < 0x1_0000_0000 && |bits| < 0x8000_0000
    ensures var n := 9 + |block|;
            Encode(Piece(index, begin, block)) ==
            [n / 0x100_0000, n / 0x1_0000 % 256, n / 0x100 % 256, n % 256, 7,
             index / 0x100_0000, index / 0x1_0000 % 256, index / 0x100 % 256, index % 256,
             begin / 0x100_0000, begin / 0x1_0000 % 256, begin / 0x100 % 256, begin % 256] + block
    ensures var n := 1 + (|bits| + 7) / 8;
            Encode(BitField(bits)) ==
            [n / 0x100_0000, n / 0x1_0000 % 256, n / 0x100 % 256, n % 256, 5] + Pack(bits)
  {
    hide BigEndian, Pack;
    BigEndian4(9 + |block|);
    BigEndian4(1 + (|bits| + 7) / 8);
    BigEndian4(index);
    BigEndian4(begin);
  }

  // ---------------------------------------------------------------- serialization

  /** A number in network order: swapped, then written low byte first. */
  method PutBig32(s: Serializer, num: uint32)
    requires s.Full()
    modifies s
    ensures s.Full() && s.data == old(s.data) + BigEndian(num, 4)
  {
    SwappedIsBigEndian(num);
    s.PutUint32(Swap32(num));
  }

  /** `serialize`: never runs out of reserved space, and writes the message as the protocol wants it. */
  method Serialize(m: Message, s: Serializer)
    requires s.Full() && Sendable(m)
    modifies s
    ensures s.Full() && s.data == old(s.data) + Encode(m)
  {
    hide BigEndian, Pack;
    LengthFits(m);
    ghost var before := s.data;
    PutBig32(s, Length(m));
    if m != KeepAlive {
      s.PutBytes([Id(m)]);
      ghost var head := s.data;
      PutPayload(m, s);
      assert s.data == before + Encode(m);
    }
  }

  lemma LengthFits(m: Message)
    requires Sendable(m)
    ensures Length(m) < U32
  {
  }

  method PutPayload(m: Message, s: Serializer)
    requires s.Full()
    modifies s
    ensures s.Full() && s.data == old(s.data) + Payload(m)
  {
    hide BigEndian, Pack;
    ghost var before := s.data;
    match m {
      case Have(index) =>
        PutBig32(s, index);
      case BitField(bits) =>
        s.PutBits(bits);
      case Request(index, begin, length) =>
        PutBig32(s, index);
        PutBig32(s, begin);
        PutBig32(s, length);
        Join(before, BigEndian(index, 4), BigEndian(begin, 4), BigEndian(length, 4));
      case Piece(index, begin, block) =>
        PutBig32(s, index);
        PutBig32(s, begin);
        s.PutBytes(block);
        Join(before, BigEndian(index, 4), BigEndian(begin, 4), block);
      case Cancel(index, begin, length) =>
        PutBig32(s, index);
        PutBig32(s, begin);
        PutBig32(s, length);
        Join(before, BigEndian(index, 4), BigEndian(begin, 4), BigEndian(length, 4));
      case _ =>
        assert before + [] == before;
    }
  }

  lemma Join(z: Bytes, a: Bytes, b: Bytes, c: Bytes)
    ensures z + a + b + c == z + (a + b + c)
  {
  }

  // ---------------------------------------------------------------- one received frame

  ghost function Big32(s: Bytes, p: nat): (x: uint32)
    requires p + 4 <= |s|
  {
    FromBigEndianBound(s[p..p + 4]);
    Pow256Values();
    FromBigEndian(s[p..p + 4])
  }

  /**
   * The message made from a frame's body (the id and what follows). None: the id is unknown, so that a
   * null pointer is handed on, or the body is too short for its kind, which throws; or what the code does
   * is undefined, because it copies beyond a buffer whose 32-bit size has wrapped around (for bodies longer
   * than MAX_LENGTH) or lets a signed index overflow. A bit field with more bits than 32 bits can count
   * loses the rest of them.
   */
  ghost function Decode(body: Bytes): Option<Message>
    requires body != []
  {
    if |body| > MAX_LENGTH then None
    else if body[0] == 0 then Some(Choke)
    else if body[0] == 1 then Some(Unchoke)
    else if body[0] == 2 then Some(Interested)
    else if body[0] == 3 then Some(NotInterested)
    else if body[0] == 4 then
      if |body| < 5 then None else Some(Have(Big32(body, 1)))
    else if body[0] == 5 then
      var n := BytesLeft(|body| - 1);
      if n > MAX_BYTES then None else Some(BitField(Unpack(body[1..1 + n])))
    else if body[0] == 6 then
      if |body| < 13 then None else Some(Request(Big32(body, 1), Big32(body, 5), Big32(body, 9)))
    else if body[0] == 7 then
      if |body| < 9 then None else Some(Piece(Big32(body, 1), Big32(body, 5), body[9..]))
    else if body[0] == 8 then
      if |body| < 13 then None else Some(Cancel(Big32(body, 1), Big32(body, 5), Big32(body, 9)))
    else None
  }

  /** The number that four bytes are, most significant first. */
  lemma Big32Is(s: Bytes, p: nat)
    requires p + 4 <= |s|
    ensures Big32(s, p) ==
            s[p] as int * 0x100_0000 + s[p + 1] as int * 0x1_0000 + s[p + 2] as int * 0x100 + s[p + 3] as int
  {
    FromBigEndian4(s[p..p + 4]);
  }

  /** What each frame is taken for: its id, its fields, and the lengths below which it is refused. */
  lemma {:induction false} FrameMeans(body: Bytes)
    requires 0 < |body| <= 0xffff_fffb
    ensures body[0] == 0 ==> Decode(body) == Some(Choke)
    ensures body[0] == 1 ==> Decode(body) == Some(Unchoke)
    ensures body[0] == 2 ==> Decode(body) == Some(Interested)
    ensures body[0] == 3 ==> Decode(body) == Some(NotInterested)
    ensures body[0] == 4 ==> Decode(body) == if |body| < 5 then None else Some(Have(Big32(body, 1)))
    ensures body[0] == 5 && |body| <= 0x1000_0001 ==> Decode(body) == Some(BitField(Unpack(body[1..])))
    ensures body[0] == 6 ==>
              Decode(body) == if |body| < 13 then None
                              else Some(Request(Big32(body, 1), Big32(body, 5), Big32(body, 9)))
    ensures body[0] == 7 ==>
              Decode(body) == if |body| < 9 then None else Some(Piece(Big32(body, 1), Big32(body, 5), body[9..]))
    ensures body[0] == 8 ==>
              Decode(body) == if |body| < 13 then None
                              else Some(Cancel(Big32(body, 1), Big32(body, 5), Big32(body, 9)))
    ensures body[0] > 8 ==> Decode(body) == None
  {
    hide Unpack, Big32;
    if body[0] == 5 {
      AllBitsReceived(body);
    }
  }

  lemma Slices(len: Bytes, body: Bytes, from: nat, n: nat)
    requires |len| == 4 && 4 <= from && from + n <= 4 + |body|
    ensures (len + body)[from..from + n] == body[from - 4..from - 4 + n]
  {
  }

  lemma BitsWrapAround(n: nat)
    ensures n * 8 % U32 == BytesLeft(n) * 8
  {
  }

  /** A bit field is received with all of its bits exactly when a signed index reaches them. */
  lemma AllBitsReceived(body: Bytes)
    requires body != [] && body[0] == 5
    ensures Decode(body) == Some(BitField(Unpack(body[1..]))) <==> |body| - 1 <= 0x1000_0000
  {
    hide Unpack;
    var n := BytesLeft(|body| - 1);
    if n == |body| - 1 {
      assert body[1..1 + n] == body[1..];
    }
  }

  /** A bit field of 2^32 + 8 bits is received as one of 8 bits. */
  lemma HugeBitFieldCut(body: Bytes)
    requires |body| == 0x2000_0002 && body[0] == 5
    ensures Decode(body) == Some(BitField(Unpack(body[1..2])))
  {
    hide Unpack;
  }

  method GetThree(d: Deserializer) returns (r: Option<(uint32, uint32, uint32)>)
    requires d.Valid() && d.offset == 5
    modifies d
    ensures |d.data| < 17 ==> r == None
    ensures |d.data| >= 17 ==>
              r == Some((Big32(d.data, 5), Big32(d.data, 9), Big32(d.data, 13)))
  {
    var a := d.GetBig32();
    var b := d.GetBig32();
    var c := d.GetBig32();
    if a.None? || b.None? || c.None? {
      return None;
    }
    return Some((a.value, b.value, c.value));
  }

  /** Behind the length and the id, the fields of the message are read. */
  ghost predicate AtFields(d: Deserializer, lenBytes: Bytes, body: Bytes)
    reads d
  {
    && |lenBytes| == 4 && body != [] && |body| <= MAX_LENGTH
    && d.Valid() && d.data == lenBytes + body && d.offset == 5
  }

  method ReadIndex(d: Deserializer, lenBytes: Bytes, body: Bytes) returns (r: Option<Message>)
    requires AtFields(d, lenBytes, body) && body[0] == 4
    modifies d
    ensures r == Decode(body)
  {
    hide FromBigEndian, Unpack, Swap32;
    var index := d.GetBig32();
    if index.None? {
      return None;
    }
    Slices(lenBytes, body, 5, 4);
    return Some(Have(index.value));
  }

  method ReadBits(d: Deserializer, lenBytes: Bytes, body: Bytes) returns (r: Option<Message>)
    requires AtFields(d, lenBytes, body) && body[0] == 5
    modifies d
    ensures r == Decode(body)
  {
    hide Unpack, Big32, BytesLeft;
    var size := (|body| - 1) * 8 % U32;
    ghost var n := BytesLeft(|body| - 1);
    BitsWrapAround(|body| - 1);
    if size > 8 * MAX_BYTES {
      return None;
    }
    var bits := d.GetBits(size);
    Slices(lenBytes, body, 5, n);
    assert (size + 7) / 8 == n;
    assert Unpack(body[1..1 + n])[..size] == Unpack(body[1..1 + n]);
    return Some(BitField(bits.value));
  }

  method ReadThree(d: Deserializer, lenBytes: Bytes, body: Bytes) returns (r: Option<Message>)
    requires AtFields(d, lenBytes, body) && (body[0] == 6 || body[0] == 8)
    modifies d
    ensures r == Decode(body)
  {
    hide FromBigEndian, Unpack;
    var three := GetThree(d);
    if three.None? {
      return None;
    }
    Slices(lenBytes, body, 5, 4);
    Slices(lenBytes, body, 9, 4);
    Slices(lenBytes, body, 13, 4);
    var (index, begin, length) := three.value;
    return Some(if body[0] == 6 then Request(index, begin, length) else Cancel(index, begin, length));
  }

  method ReadPiece(d: Deserializer, lenBytes: Bytes, body: Bytes) returns (r: Option<Message>)
    requires AtFields(d, lenBytes, body) && body[0] == 7
    modifies d
    ensures r == Decode(body)
  {
    hide FromBigEndian, Unpack, Swap32;
    var index := d.GetBig32();
    var begin := d.GetBig32();
    if index.None? || begin.None? {
      return None;
    }
    var block := d.Get(|body| - 9);
    Slices(lenBytes, body, 5, 4);
    Slices(lenBytes, body, 9, 4);
    Slices(lenBytes, body, 13, |body| - 9);
    assert body[9..9 + (|body| - 9)] == body[9..];
    return Some(Piece(index.value, begin.value, block.value));
  }

  /** The part of `recieve_message` that turns a frame into a message, from its length bytes on. */
  method ReadFrame(lenBytes: Bytes, body: Bytes) returns (r: Option<Message>)
    requires |lenBytes| == 4 && body != [] && |body| < U32
    ensures r == Decode(body)
  {
    hide FromBigEndian, Unpack, Swap32, Big32;
    if |body| > MAX_LENGTH {
      return None;
    }
    var d := new Deserializer(lenBytes + body);
    var id := body[0];
    if id == 0 {
      return Some(Choke);
    } else if id == 1 {
      return Some(Unchoke);
    } else if id == 2 {
      return Some(Interested);
    } else if id == 3 {
      return Some(NotInterested);
    }
    var head := d.Get(5);
    if id == 4 {
      r := ReadIndex(d, lenBytes, body);
      return;
    } else if id == 5 {
      r := ReadBits(d, lenBytes, body);
      return;
    } else if id == 6 || id == 8 {
      r := ReadThree(d, lenBytes, body);
      return;
    } else if id == 7 {
      r := ReadPiece(d, lenBytes, body);
      return;
    }
    return None;
  }

  // ---------------------------------------------------------------- the stream

  /** Why the receive loop is not delivering: it waits for more bytes, or it has failed. */
  datatype Status = Waiting | Failed

  /** The messages delivered so far, where the next frame starts, and the status. */
  datatype Received = Received(delivered: seq<Message>, next: nat, status: Status)

  /** Reading frames from position p on, as far as the bytes that have arrived go. */
  ghost function Receive(s: Bytes, p: nat): (r: Received)
    requires p <= |s|
    ensures p <= r.next <= |s|
    decreases |s| - p
  {
    if p + 4 > |s| then Received([], p, Waiting)
    else
      var len := Big32(s, p);
      if len == 0 then Receive(s, p + 4)
      else if p + 4 + len > |s| then Received([], p, Waiting)
      else
        match Decode(s[p + 4..p + 4 + len])
        case None => Received([], p, Failed)
        case Some(m) =>
          var rest := Receive(s, p + 4 + len);
          Received([m] + rest.delivered, rest.next, rest.status)
  }

  /** `recieve_message`, called again after every message as long as there are bytes. */
  method ReceiveMessages(s: Bytes, start: nat) returns (r: Received)
    requires start <= |s|
    ensures r == Receive(s, start)
  {
    hide FromBigEndian, Swap32, Decode;
    var delivered: seq<Message> := [];
    var p := start;
    while true
      invariant start <= p <= |s|
      invariant Receive(s, start) ==
                var rest := Receive(s, p); Received(delivered + rest.delivered, rest.next, rest.status)
      decreases |s| - p
    {
      if p + 4 > |s| {
        return Received(delivered, p, Waiting);
      }
      var lenBytes := s[p..p + 4];
      var d := new Deserializer(lenBytes);
      var len := d.GetBig32();
      assert lenBytes[0..4] == lenBytes;
      if len.value == 0 {
        p := p + 4;
      } else if p + 4 + len.value > |s| {
        return Received(delivered, p, Waiting);
      } else {
        var m := ReadFrame(lenBytes, s[p + 4..p + 4 + len.value]);
        if m.None? {
          return Received(delivered, p, Failed);
        }
        Associative(delivered, [m.value], Receive(s, p + 4 + len.value).delivered);
        delivered := delivered + [m.value];
        p := p + 4 + len.value;
      }
    }
  }

  // ---------------------------------------------------------------- round trip

  /** What arrives of a message sent: a bit vector is extended to whole bytes. */
  function Arrived(m: Message): Message {
    if m.BitField? then BitField(Extended(m.bits)) else m
  }

  /** What arrives of the messages sent: all but the keep-alives. */
  function Arriving(ms: seq<Message>): seq<Message> {
    if ms == [] then []
    else (if ms[0].KeepAlive? then [] else [Arrived(ms[0])]) + Arriving(ms[1..])
  }

  lemma Big32At(s: Bytes, p: nat, x: uint32)
    requires At(s, p, BigEndian(x, 4))
    ensures Big32(s, p) == x
  {
    AtSlice(s, p, BigEndian(x, 4));
    Pow256Values();
    BigEndianValue(x, 4);
  }

  lemma ThreeAt(s: Bytes, p: nat, a: Bytes, b: Bytes, c: Bytes)
    requires At(s, p, a + b + c)
    ensures At(s, p, a) && At(s, p + |a|, b) && At(s, p + |a| + |b|, c)
  {
    AtConcat(s, p, a + b, c);
    AtConcat(s, p, a, b);
  }

  lemma DecodeRoundTrip(m: Message)
    requires Sendable(m) && !m.KeepAlive?
    ensures Decode([Id(m)] + Payload(m)) == Some(Arrived(m))
  {
    hide At, BigEndian, FromBigEndian, Big32, Unpack, Pack, Extended;
    var payload := Payload(m);
    var body := [Id(m)] + payload;
    LengthFits(m);
    AfterId(Id(m), payload);
    match m
    case Have(index) => Big32At(body, 1, index);
    case BitField(bits) => BitsRoundTrip(bits);
    case Request(index, begin, length) => ThreeNumbers(body, index, begin, length);
    case Cancel(index, begin, length) => ThreeNumbers(body, index, begin, length);
    case Piece(index, begin, block) => PieceFields(body, index, begin, block);
    case _ =>
  }

  lemma AfterId(id: Byte, payload: Bytes)
    ensures At([id] + payload, 1, payload)
  {
    AtSlice([id] + payload, 1, payload);
  }

  lemma BytesFit(n: nat)
    requires n <= MAX_BITS
    ensures (n + 7) / 8 <= MAX_BYTES
  {
  }

  lemma DecodeBits(body: Bytes)
    requires body != [] && body[0] == 5 && |body| - 1 <= MAX_BYTES
    ensures Decode(body) == Some(BitField(Unpack(body[1..])))
  {
    hide Unpack, Big32, BytesLeft;
    assert body[1..1 + (|body| - 1)] == body[1..];
  }

  lemma BitsRoundTrip(bits: seq<bool>)
    requires |bits| <= MAX_BITS
    ensures Decode([5] + Pack(bits)) == Some(BitField(Extended(bits)))
  {
    hide Decode, Unpack, Pack, Extended;
    BytesFit(|bits|);
    assert ([5] + Pack(bits))[1..] == Pack(bits);
    DecodeBits([5] + Pack(bits));
    PackRoundTrip(bits);
  }

  lemma PieceFields(body: Bytes, index: uint32, begin: uint32, block: Bytes)
    requires |body| == 9 + |block| && At(body, 1, BigEndian(index, 4) + BigEndian(begin, 4) + block)
    ensures Big32(body, 1) == index && Big32(body, 5) == begin && body[9..] == block
  {
    hide At, BigEndian, Big32;
    ThreeAt(body, 1, BigEndian(index, 4), BigEndian(begin, 4), block);
    Big32At(body, 1, index);
    Big32At(body, 5, begin);
    AtSlice(body, 9, block);
    assert body[9..9 + |block|] == body[9..];
  }

  lemma ThreeNumbers(body: Bytes, a: uint32, b: uint32, c: uint32)
    requires At(body, 1, BigEndian(a, 4) + BigEndian(b, 4) + BigEndian(c, 4))
    ensures 13 <= |body| && Big32(body, 1) == a && Big32(body, 5) == b && Big32(body, 9) == c
  {
    hide BigEndian, FromBigEndian, Big32;
    ThreeAt(body, 1, BigEndian(a, 4), BigEndian(b, 4), BigEndian(c, 4));
    assert 13 <= |body|;
    hide At;
    Big32At(body, 1, a);
    Big32At(body, 5, b);
    Big32At(body, 9, c);
  }

  /** One message at the front of the stream. */
  lemma FrameAt(s: Bytes, p: nat, m: Message)
    requires Sendable(m) && At(s, p, Encode(m))
    ensures p + 4 <= |s| && Big32(s, p) == Length(m) && p + 4 + Length(m) <= |s|
    ensures |Encode(m)| == 4 + Length(m) && (Length(m) == 0 <==> m.KeepAlive?)
    ensures !m.KeepAlive? ==> s[p + 4..p + 4 + Length(m)] == [Id(m)] + Payload(m)
  {
    hide At, BigEndian;
    LengthPrefix(m);
    if m.KeepAlive? {
      Big32At(s, p, 0);
    } else {
      var head := BigEndian(Length(m), 4);
      assert head + [Id(m)] + Payload(m) == head + ([Id(m)] + Payload(m));
      AtConcat(s, p, head, [Id(m)] + Payload(m));
      Big32At(s, p, Length(m));
      AtSlice(s, p + 4, [Id(m)] + Payload(m));
    }
    AtSlice(s, p, Encode(m));
  }

  /**
   * Messages serialized back to back are received in order, keep-alives dropped and bit vectors
   * extended, and whatever bytes come after them are read as if they came first.
   */
  lemma {:induction false} StreamRoundTrip(ms: seq<Message>, s: Bytes, p: nat)
    requires p <= |s| && At(s, p, EncodeAll(ms))
    requires forall i :: 0 <= i < |ms| ==> Sendable(ms[i])
    ensures p + |EncodeAll(ms)| <= |s|
    ensures var rest := Receive(s, p + |EncodeAll(ms)|);
            Receive(s, p) == Received(Arriving(ms) + rest.delivered, rest.next, rest.status)
    decreases |ms|
  {
    hide *;
    if ms == [] {
      NothingSent(s, p);
    } else {
      var m, rest := ms[0], ms[1..];
      var n := p + |Encode(m)|;
      FirstSent(ms);
      AtConcat(s, p, Encode(m), EncodeAll(rest));
      FrameReceived(s, p, m);
      StreamRoundTrip(rest, s, n);
      var one := if m.KeepAlive? then [] else [Arrived(m)];
      Associative(one, Arriving(rest), Receive(s, n + |EncodeAll(rest)|).delivered);
    }
  }

  lemma NothingSent(s: Bytes, p: nat)
    requires p <= |s|
    ensures EncodeAll([]) == [] && Arriving([]) == []
    ensures var r := Receive(s, p); r == Received([] + r.delivered, r.next, r.status)
  {
    var r := Receive(s, p);
    assert [] + r.delivered == r.delivered;
  }

  lemma FirstSent(ms: seq<Message>)
    requires ms != []
    ensures EncodeAll(ms) == Encode(ms[0]) + EncodeAll(ms[1..])
    ensures Arriving(ms) == (if ms[0].KeepAlive? then [] else [Arrived(ms[0])]) + Arriving(ms[1..])
  {
  }

  /** The receive loop at a message that was sent. */
  lemma FrameReceived(s: Bytes, p: nat, m: Message)
    requires Sendable(m) && At(s, p, Encode(m))
    ensures p + |Encode(m)| <= |s|
    ensures var rest := Receive(s, p + |Encode(m)|);
            Receive(s, p) ==
            Received((if m.KeepAlive? then [] else [Arrived(m)]) + rest.delivered, rest.next, rest.status)
  {
    hide *;
    FrameAt(s, p, m);
    OneFrame(s, p);
    if m.KeepAlive? {
      NothingSent(s, p + |Encode(m)|);
    } else {
      DecodeRoundTrip(m);
    }
  }

  /** One round of the receive loop when a whole frame is there. */
  lemma OneFrame(s: Bytes, p: nat)
    requires p + 4 <= |s| && p + 4 + Big32(s, p) <= |s|
    ensures var len := Big32(s, p);
            Receive(s, p) ==
            if len == 0 then Receive(s, p + 4)
            else
              match Decode(s[p + 4..p + 4 + len])
              case None => Received([], p, Failed)
              case Some(m) =>
                var rest := Receive(s, p + 4 + len);
                Received([m] + rest.delivered, rest.next, rest.status)
  {
    hide Decode, Big32;
  }

  lemma NoFrame(s: Bytes, p: nat)
    requires p <= |s| && (p + 4 > |s| || (Big32(s, p) > 0 && p + 4 + Big32(s, p) > |s|))
    ensures Receive(s, p) == Received([], p, Waiting)
  {
    hide Decode, Big32;
  }

  /**
   * What has been delivered does not depend on how the bytes arrive: after any part of the stream,
   * going on from the first unfinished frame with the rest gives what the whole stream gives.
   */
  lemma {:induction false} ArrivalInvariant(s: Bytes, k: nat, p: nat)
    requires p <= k <= |s|
    ensures var early := Receive(s[..k], p);
            if early.status == Failed then Receive(s, p) == early
            else var rest := Receive(s, early.next);
                 Receive(s, p) == Received(early.delivered + rest.delivered, rest.next, rest.status)
    decreases k - p
  {
    hide *;
    if p + 4 > k {
      NoFrame(s[..k], p);
      NothingSent(s, p);
    } else {
      PrefixReads(s, k, p);
      var len := Big32(s, p);
      if p + 4 + len > k {
        NoFrame(s[..k], p);
        NothingSent(s, p);
      } else {
        OneFrame(s[..k], p);
        OneFrame(s, p);
        assert s[..k][p + 4..p + 4 + len] == s[p + 4..p + 4 + len];
        ArrivalInvariant(s, k, p + 4 + len);
        if len > 0 && Decode(s[p + 4..p + 4 + len]).Some? {
          var m, early := Decode(s[p + 4..p + 4 + len]).value, Receive(s[..k], p + 4 + len);
          Associative([m], early.delivered, Receive(s, early.next).delivered);
        }
      }
    }
  }

  lemma PrefixReads(s: Bytes, k: nat, p: nat)
    requires p + 4 <= k <= |s|
    ensures Big32(s[..k], p) == Big32(s, p)
  {
    assert s[..k][p..p + 4] == s[p..p + 4];
  }
}
