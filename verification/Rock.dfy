/**
 The framing of sylar/rock/rock_protocol.cc: a header with magic, version, flag and length in
 front of a serialised message, sent and received over a stream that moves the bytes in
 pieces of any size. Compression is a pair of functions given from outside.
 */
module Rock {
  import opened Wrappers
  import opened Bits
  import opened FlatBuffer
  import opened FixedInt
  import opened ByteArrays
  import opened Items
  import opened Codec
  import opened Protocol
  import opened Streams
  import V = Varint

  /** The chunk size of a byte array that is not given one. */
  const BASE: nat := 4096
  const HEADER_SIZE: nat := 8
  /** The header's length is an int32_t; from here on it is negative. */
  const LENGTH_END: nat := 0x8000_0000

  datatype Gzip = Gzip(pack: seq<byte> -> seq<byte>, unpack: seq<byte> -> Option<seq<byte>>)

  datatype Result =
    | Msg(m: Message)
    | Null       // the decoder logs an error and returns no message
    | Crash      // the decoder dereferences a null chunk

  // ---------- The bytes of a frame ----------

  lemma {:induction false} BytesNeutral(items: seq<Item>, e: int, h: int, e': int, h': int)
    requires forall item <- items :: Typed(item)
    requires forall i :: 0 <= i < |items| ==>
               items[i].Var? || (items[i].Fixed? && items[i].width == 8) || (items[i].Str? && items[i].prefix == Vint)
    ensures BytesAll(items, e, h) == BytesAll(items, e', h')
    decreases |items|
  {
    hide V.Encode, Pow2;
    if items != [] {
      BytesNeutral(items[1..], e, h, e', h');
    }
  }

  /** The serialised message; it holds no fixed-width integers, so no byte order matters. */
  function Wire(m: Message): (s: seq<byte>)
    requires Sendable(m)
    ensures |s| >= 1
  {
    MessageBytes(m, 0, 0)
  }

  lemma WireIs(m: Message, e: int, h: int)
    requires Sendable(m)
    ensures MessageBytes(m, e, h) == Wire(m)
  {
    hide Typed, LengthFits, BytesAll, Bytes;
    BytesNeutral(Layout(m), e, h, 0, 0);
  }

  /** The header as it goes on the wire; its length is swapped on little-endian hosts only. */
  function Header(flag: byte, len: nat, host: int): (s: seq<byte>)
    ensures |s| == HEADER_SIZE
  {
    [0xab, 0xcd, 1, flag] + WireBytes(Wrap(len, 32), 4, BIG_ENDIAN, host)
  }

  predicate Zipped(m: Message, gzipMin: nat)
    requires Sendable(m)
  {
    Wrap(|Wire(m)|, 32) >= gzipMin
  }

  /** What travels behind the header. */
  function Carried(m: Message, gz: Gzip, gzipMin: nat): seq<byte>
    requires Sendable(m)
  {
    if Zipped(m, gzipMin) then gz.pack(Wire(m)) else Wire(m)
  }

  function Frame(m: Message, gz: Gzip, gzipMin: nat, host: int): seq<byte>
    requires Sendable(m)
  {
    var carried := Carried(m, gz, gzipMin);
    Header(if Zipped(m, gzipMin) then 1 else 0, |carried|, host) + carried
  }

  lemma LengthsFit()
    ensures HEADER_SIZE < LENGTH_END < Pow2(32)
  {
    Pow2Values();
  }

  // ---------- Reading a frame ----------

  datatype Reading = Bad | Payload(bytes: seq<byte>, rest: seq<byte>)

  /** What the decoder makes of a stream, before it parses the message. */
  function ReadFrame(s: seq<byte>, gz: Gzip, maxLength: nat, host: int): Reading {
    if |s| < HEADER_SIZE || s[0] != 0xab || s[1] != 0xcd || s[2] != 1 then Bad
    else
      var len := WireValue(s[4..8], BIG_ENDIAN, host);
      if len >= maxLength || len >= LENGTH_END || len == 0 || len > |s| - HEADER_SIZE then Bad
      else
        var body, rest := s[8..8 + len], s[8 + len..];
        if s[3] % 2 == 0 then Payload(body, rest)
        else
          match gz.unpack(body)
          case None => Bad
          case Some(u) => Payload(u, rest)
  }

  /** A frame at the front of a stream yields its message's bytes and the rest of the stream. */
  lemma FrameReads(m: Message, gz: Gzip, gzipMin: nat, maxLength: nat, host: int, rest: seq<byte>)
    requires Sendable(m) && 1 <= |Carried(m, gz, gzipMin)| < Min(maxLength, LENGTH_END)
    requires gz.unpack(gz.pack(Wire(m))) == Some(Wire(m))
    ensures ReadFrame(Frame(m, gz, gzipMin, host) + rest, gz, maxLength, host) == Payload(Wire(m), rest)
  {
    hide Sendable, WireBytes, WireValue, Pow2, Wire, Zipped;
    LengthsFit();
    var flag: byte := if Zipped(m, gzipMin) then 1 else 0;
    var body := Carried(m, gz, gzipMin);
    var len := |body|;
    var s := Header(flag, len, host) + body + rest;
    WrapNear(len, 32);
    WireRoundTrip(len, 4, BIG_ENDIAN, host);
    assert s[4..8] == WireBytes(len, 4, BIG_ENDIAN, host);
    assert s[8..8 + len] == body && s[8 + len..] == rest;
    assert Frame(m, gz, gzipMin, host) + rest == s;
  }

  /** s is a frame with this flag and body, and then the rest. */
  ghost predicate Framed(s: seq<byte>, flag: byte, body: seq<byte>, rest: seq<byte>) {
    && |s| == 8 + |body| + |rest|
    && s[0] == 0xab && s[1] == 0xcd && s[2] == 1 && s[3] == flag
    && (forall i :: 4 <= i < 8 ==> s[i] == Digit(|body|, 7 - i))
    && s[8..8 + |body|] == body && s[8 + |body|..] == rest
  }

  /**
   The bytes of a frame, on any host: magic, version, the flag, the length with its high byte
   first, and the message, compressed exactly from gzipMin bytes on.
   */
  lemma FrameBytes(m: Message, gz: Gzip, gzipMin: nat, host: int)
    requires Sendable(m) && IsOrder(host)
    ensures var zipped := |Wire(m)| % Pow2(32) >= gzipMin;
            Framed(Frame(m, gz, gzipMin, host), if zipped then 1 else 0, if zipped then gz.pack(Wire(m)) else Wire(m), [])
  {
    hide Sendable, WireBytes, Pow2, Wire, Digit;
    var body := Carried(m, gz, gzipMin);
    var s := Frame(m, gz, gzipMin, host);
    WrapWord(|body|);
    WireOrder(Wrap(|body|, 32), 4, BIG_ENDIAN, host);
    forall i | 4 <= i < 8
      ensures s[i] == Digit(|body|, 7 - i)
    {
      WrapDigits(|body|, 32, 7 - i);
      assert s[i] == WireBytes(Wrap(|body|, 32), 4, BIG_ENDIAN, host)[i - 4];
    }
    assert s[8..8 + |body|] == body && s[8 + |body|..] == [];
  }

  lemma WrapWord(len: nat)
    ensures Wrap(len, 32) < Pow2(32)
  {
  }

  /** What the decoder accepts: a length it allows, and a body it can uncompress if it has to. */
  ghost predicate Acceptable(gz: Gzip, maxLength: nat, flag: byte, body: seq<byte>) {
    1 <= |body| < Min(maxLength, LENGTH_END) && (flag % 2 == 1 ==> gz.unpack(body).Some?)
  }

  /** An acceptable frame is read as such. */
  lemma FramedReads(s: seq<byte>, gz: Gzip, maxLength: nat, host: int, flag: byte, body: seq<byte>, rest: seq<byte>)
    requires IsOrder(host) && Framed(s, flag, body, rest) && Acceptable(gz, maxLength, flag, body)
    ensures ReadFrame(s, gz, maxLength, host)
         == Payload(if flag % 2 == 1 then gz.unpack(body).value else body, rest)
  {
    hide WireBytes, WireValue, Pow2, Digit;
    LengthsFit();
    WireOrder(|body|, 4, BIG_ENDIAN, host);
    assert s[4..8] == WireBytes(|body|, 4, BIG_ENDIAN, host);
    WireRoundTrip(|body|, 4, BIG_ENDIAN, host);
  }

  /** What is read is an acceptable frame. */
  lemma ReadsFramed(s: seq<byte>, gz: Gzip, maxLength: nat, host: int) returns (flag: byte, body: seq<byte>, rest: seq<byte>)
    requires IsOrder(host) && ReadFrame(s, gz, maxLength, host).Payload?
    ensures Framed(s, flag, body, rest) && Acceptable(gz, maxLength, flag, body)
  {
    hide WireValue, Pow2, Digit;
    var len := WireValue(s[4..8], BIG_ENDIAN, host);
    ValueOrder(s[4..8], BIG_ENDIAN, host);
    flag, body, rest := s[3], s[8..8 + len], s[8 + len..];
    forall i | 4 <= i < 8
      ensures s[i] == Digit(|body|, 7 - i)
    {
      assert s[4..8][i - 4] == s[i];
    }
  }

  /** The decoder takes a stream for a frame exactly if it begins with an acceptable one. */
  lemma AcceptsExactly(s: seq<byte>, gz: Gzip, maxLength: nat, host: int)
    requires IsOrder(host)
    ensures ReadFrame(s, gz, maxLength, host).Payload?
       <==> exists flag, body, rest :: Framed(s, flag, body, rest) && Acceptable(gz, maxLength, flag, body)
  {
    hide Framed, Acceptable, ReadFrame;
    if ReadFrame(s, gz, maxLength, host).Payload? {
      var flag, body, rest := ReadsFramed(s, gz, maxLength, host);
    }
    if flag, body, rest :| Framed(s, flag, body, rest) && Acceptable(gz, maxLength, flag, body) {
      FramedReads(s, gz, maxLength, host, flag, body, rest);
    }
  }

  /** A frame has the same bytes whichever byte order its sender has. */
  lemma FrameNeutral(m: Message, gz: Gzip, gzipMin: nat, host: int, host': int)
    requires Sendable(m) && IsOrder(host) && IsOrder(host')
    ensures Frame(m, gz, gzipMin, host) == Frame(m, gz, gzipMin, host')
  {
    var len := |Carried(m, gz, gzipMin)|;
    hide Sendable, WireBytes, Pow2, Carried, Zipped, Digit, Wrap;
    WrapWord(len);
    WireOrder(Wrap(len, 32), 4, BIG_ENDIAN, host);
    WireOrder(Wrap(len, 32), 4, BIG_ENDIAN, host');
    assert WireBytes(Wrap(len, 32), 4, BIG_ENDIAN, host) == WireBytes(Wrap(len, 32), 4, BIG_ENDIAN, host');
  }

  /** A new array that holds exactly p, with the cursor at its front. */
  ghost predicate Loaded(b: Buffer, p: seq<byte>) {
    b.Sane() && b.pos == 0 && b.size == |p| && |b.mem| == Grown(BASE, BASE, |p|) && b.mem[..|p|] == p
  }

  /** The message of the payload, unless it ends empty and fills its chunks exactly. */
  ghost predicate Delivered(p: seq<byte>, r: Result) {
    forall m: Message | Sendable(m) && m.body.Body? && Wire(m) == p ::
      r == if EndsEmpty(m) && |p| == Grown(BASE, BASE, |p|) then Crash else Msg(m)
  }

  /** Whatever the payload is, the result is that of parsing an array that holds it. */
  ghost predicate Parses(p: seq<byte>, r: Result, host: int) {
    exists b: Buffer :: Loaded(b, p) && r == ResultOf(ParseMessage(b, true, host).0)
  }

  /** What the decoder returns for the outcome of reading the message. */
  function ResultOf(o: Outcome<Parsed>): Result {
    match o
    case Ok(Known(m)) => Msg(m)
    case Ok(UnknownType(_)) => Null
    case OutOfRange => Null
    case NullCursor => Crash
  }

  lemma LoadedDelivers(b: Buffer, p: seq<byte>, host: int)
    requires Loaded(b, p)
    ensures Delivered(p, ResultOf(ParseMessage(b, true, host).0))
  {
    hide Sendable, ParseMessage, EndsEmpty, Grown, BytesAll, Layout;
    forall m: Message | Sendable(m) && m.body.Body? && Wire(m) == p
      ensures ResultOf(ParseMessage(b, true, host).0)
           == if EndsEmpty(m) && |p| == Grown(BASE, BASE, |p|) then Crash else Msg(m)
    {
      WireIs(m, b.endian, host);
      FieldsOfLayout(m);
      EndsEmptyIs(b, m, host);
      MessageRoundTrip(b, m, host);
    }
  }

  /** A payload that does not begin with a type gives no message. */
  lemma UnknownGivesNone(p: seq<byte>, r: Result, host: int)
    requires Parses(p, r, host) && (p == [] || p[0] !in {1, 2, 3})
    ensures r == Null
  {
    hide ParseMessage, Grown;
    var b :| Loaded(b, p) && r == ResultOf(ParseMessage(b, true, host).0);
    LoadedSize(b, p);
    UnknownTypes(b, true, host);
  }

  method NewArray(host: int) returns (ba: ByteArray)
    ensures ba.Valid() && fresh(ba) && fresh(ba.Repr) && ba.host == host
    ensures ba.State().Sane() && ba.State().base == BASE && ba.position == 0 && ba.size == 0 && |ba.mem| == BASE
  {
    ba := new ByteArray(BASE, host);
    ba.StateSane();
  }

  lemma WrittenIsLoaded(b0: Buffer, p: seq<byte>, b1: Buffer)
    requires b0.Sane() && b0.base == BASE && b0.pos == 0 && b0.size == 0 && |b0.mem| == BASE
    requires Writes(b0, p, b1)
    ensures |p| <= |b1.mem| && Loaded(Positioned(b1, 0), p)
  {
    hide Grown;
    WritesSlices(b0, p, b1);
    assert b1.mem[0..|p|] == b1.mem[..|p|];
  }

  /** A new array filled with p and rewound. */
  method Load(p: seq<byte>, host: int) returns (ba: ByteArray)
    ensures ba.Valid() && fresh(ba) && fresh(ba.Repr) && ba.host == host && Loaded(ba.State(), p)
  {
    hide Loaded, Grown, WritesWithin;
    ba := NewArray(host);
    ghost var b0 := ba.State();
    ba.Write(p);
    WrittenIsLoaded(b0, p, ba.State());
    var r := ba.SetPosition(0);
  }

  /** The message's own array, rewound. */
  method MessageArray(m: Message, host: int) returns (ba: ByteArray)
    requires Sendable(m)
    ensures ba.Valid() && fresh(ba) && fresh(ba.Repr) && ba.host == host && Loaded(ba.State(), Wire(m))
  {
    hide Sendable, Layout, Grown, WritesWithin, Loaded, BytesAll;
    var obj := new MessageObject(m.head, m.body);
    ba := NewArray(host);
    ghost var b0 := ba.State();
    obj.SerializeToByteArray(ba);
    WireIs(m, b0.endian, host);
    WrittenIsLoaded(b0, Wire(m), ba.State());
    var back := ba.SetPosition(0);
  }

  /** All bytes behind the cursor, through views, as the compressor takes them. */
  method AllBytes(ba: ByteArray, ghost p: seq<byte>) returns (bytes: seq<byte>)
    requires ba.Valid() && Loaded(ba.State(), p)
    ensures bytes == p
  {
    hide Grown, Placed, ViewsAt;
    var n, iovs := ba.GetReadBuffers(ba.size);
    bytes := Gathered(ba, iovs, n);
    assert ba.mem[0..|p|] == ba.mem[..|p|];
  }

  /** The message's array, or the array of its compressed bytes. */
  method Prepare(m: Message, gz: Gzip, gzipMin: nat, host: int) returns (ba: ByteArray, flag: byte)
    requires Sendable(m)
    ensures ba.Valid() && fresh(ba) && fresh(ba.Repr) && Loaded(ba.State(), Carried(m, gz, gzipMin))
    ensures flag == if Zipped(m, gzipMin) then 1 else 0
  {
    hide Sendable, Wire, Loaded, Wrap;
    ba := MessageArray(m, host);
    flag := 0;
    LoadedSize(ba.State(), Wire(m));
    if Wrap(ba.size, 32) >= gzipMin {
      var bytes := AllBytes(ba, Wire(m));
      ba := Load(gz.pack(bytes), host);
      flag := 1;
    }
  }

  lemma LoadedSize(b: Buffer, p: seq<byte>)
    requires Loaded(b, p)
    ensures b.pos == 0 && b.size == |p| && b.Sane() && b.Readable() == p
  {
    assert b.mem[0..|p|] == b.mem[..|p|];
  }

  /** Sends a message as one frame; a compressor that returns nothing counts as a failure. */
  method SerializeTo(stream: SocketStream, m: Message, gz: Gzip, gzipMin: nat, host: int) returns (rt: int)
    requires Sendable(m) && |Carried(m, gz, gzipMin)| < SIZE_WORD
    modifies stream.socket`sent
    ensures stream.socket.sent ==
            if stream.socket.connected then old(stream.socket.sent) + Frame(m, gz, gzipMin, host) else old(stream.socket.sent)
    ensures rt == if |Carried(m, gz, gzipMin)| >= 1 then |Frame(m, gz, gzipMin, host)| else -4
  {
    hide Sendable, Carried, Zipped, Loaded, Header, Pow2, WritesWithin, Grown;
    LengthsFit();
    var ba, flag := Prepare(m, gz, gzipMin, host);
    ghost var p := Carried(m, gz, gzipMin);
    LoadedSize(ba.State(), p);
    var header := Header(flag, ba.size, host);
    var sent := stream.WriteFixBytes(header);
    if sent <= 0 {
      return -3;
    }
    assert p[..|p|] == p;
    var body := stream.WriteFixSize(ba, ba.size - ba.position);
    if body <= 0 {
      return -4;
    }
    return HEADER_SIZE + ba.size;
  }

  /** The body of a frame in a new array, rewound. */
  method ReceiveArray(stream: SocketStream, length: nat, host: int) returns (ba: ByteArray, got: nat)
    requires length < SIZE_WORD && (stream.socket.connected || length == 0)
    modifies stream.socket`incoming
    ensures ba.Valid() && fresh(ba) && fresh(ba.Repr) && ba.host == host
    ensures got > 0 <==> 1 <= length <= |old(stream.socket.incoming)|
    ensures !stream.socket.connected ==> stream.socket.incoming == old(stream.socket.incoming)
    ensures got > 0 ==> Loaded(ba.State(), old(stream.socket.incoming)[..length])
    ensures got > 0 ==> stream.socket.incoming == old(stream.socket.incoming)[length..]
  {
    hide Loaded, Grown, WritesWithin, Pow2;
    ba := NewArray(host);
    ghost var b0, s := ba.State(), stream.socket.incoming;
    got := stream.ReadFixSize(ba, length);
    if got > 0 {
      WrittenIsLoaded(b0, s[..length], ba.State());
      var back := ba.SetPosition(0);
    }
  }

  /** The header as it is constructed, before anything is read into it. */
  const EMPTY_HEADER: seq<byte> := [0xab, 0xcd, 1, 0, 0, 0, 0, 0]

  lemma {:induction false} ZeroValue(s: seq<byte>)
    requires forall i :: 0 <= i < |s| ==> s[i] == 0
    ensures FromLittle(s) == 0
  {
    if s != [] {
      ZeroValue(s[1..]);
    }
  }

  lemma {:induction false} ZeroBytes(n: nat)
    ensures forall i :: 0 <= i < n ==> ToLittle(0, n)[i] == 0
  {
    if n > 0 {
      ZeroBytes(n - 1);
    }
  }

  lemma EmptyLength(host: int)
    ensures WireValue(EMPTY_HEADER[4..8], BIG_ENDIAN, host) == 0
  {
    hide FromLittle, ToLittle, Reverse;
    var zeros := EMPTY_HEADER[4..8];
    ZeroValue(zeros);
    ZeroValue(Reverse(zeros));
    ZeroBytes(4);
    ZeroValue(Reverse(ToLittle(0, 4)));
  }

  /** Receives one frame and parses its message; on a closed socket there is none. */
  method ParseFrom(stream: SocketStream, gz: Gzip, maxLength: nat, host: int) returns (r: Result)
    modifies stream.socket`incoming
    ensures !stream.socket.connected ==> r == Null && stream.socket.incoming == old(stream.socket.incoming)
    ensures stream.socket.connected ==>
            match ReadFrame(old(stream.socket.incoming), gz, maxLength, host)
            case Bad => r == Null
            case Payload(p, rest) => Parses(p, r, host) && Delivered(p, r) && stream.socket.incoming == rest
  {
    hide Delivered, WireValue, Loaded, Grown, WritesWithin, ParseMessage, Pow2;
    LengthsFit();
    EmptyLength(host);
    ghost var s := stream.socket.incoming;
    var n, header := stream.ReadFixBytes(HEADER_SIZE);
    if n <= 0 {
      return Null;
    }
    header := header + EMPTY_HEADER[|header|..];
    if header[0] != 0xab || header[1] != 0xcd {
      return Null;
    }
    if header[2] != 1 {
      return Null;
    }
    assert header[4..8] == if stream.socket.connected then s[4..8] else EMPTY_HEADER[4..8];
    var length := WireValue(header[4..8], BIG_ENDIAN, host);
    if length >= maxLength {
      return Null;
    }
    // A negative length asks for almost 2^64 bytes, which neither memory nor stream can give.
    if length >= LENGTH_END {
      return Null;
    }
    var ba, got := ReceiveArray(stream, length, host);
    if got <= 0 {
      return Null;
    }
    ghost var p := s[8..8 + length];
    assert s[8..][..length] == p && s[8..][length..] == s[8 + length..];
    if header[3] % 2 == 1 {
      var bytes := AllBytes(ba, p);
      var u := gz.unpack(bytes);
      if u.None? {
        return Null;
      }
      p := u.value;
      ba := Load(u.value, host);
    }
    LoadedDelivers(ba.State(), p, host);
    ghost var b := ba.State();
    var o := ReadMessage(ba, true);
    r := ResultOf(o);
    assert Loaded(b, p) && r == ResultOf(ParseMessage(b, true, host).0);
  }

  /** Whole chunks are needed exactly when the length is a multiple of the chunk size. */
  lemma {:induction false} GrownExact(capacity: nat, n: nat)
    requires 1 <= capacity && capacity % BASE == 0
    ensures n == Grown(capacity, BASE, n) <==> n >= capacity && n % BASE == 0
    decreases n - capacity
  {
    if n > capacity {
      GrownExact(capacity + BASE, n);
    }
  }

  lemma Pow2Above(n: nat)
    requires n < 0x10000
    ensures n < Pow2(64) && Trunc(n, 64) == n && Pow2(32) >= 1
  {
    Pow2Times256(0);
    Pow2Times256(8);
    Pow2Monotone(16, 64);
    TruncSmall(n, 64);
  }

  lemma TwoDigits(v: nat)
    requires v < 0x4000
    ensures |V.Encode(v)| == if v < 0x80 then 1 else 2
  {
    if v >= 0x80 {
      assert v / 0x80 < 0x80;
    }
  }

  /** The length of a string of fewer than 16384 bytes with its prefix. */
  lemma StringLength(text: seq<byte>)
    requires |text| < 0x4000
    ensures |Bytes(Str(Vint, text), 0, 0)| == |text| + if |text| < 0x80 then 1 else 2
    ensures LengthFits(Str(Vint, text))
  {
    Pow2Above(|text|);
    TwoDigits(|text|);
    hide Pow2, Trunc, V.Encode;
  }

  lemma ZeroLength()
    ensures Typed(U32(0)) && |Bytes(U32(0), 0, 0)| == 1
  {
    Pow2Above(0);
    TwoDigits(0);
    hide Pow2, Trunc, V.Encode;
  }

  lemma BytesCons(x: Item, rest: seq<Item>)
    requires Typed(x) && forall item <- rest :: Typed(item)
    ensures |BytesAll([x] + rest, 0, 0)| == |Bytes(x, 0, 0)| + |BytesAll(rest, 0, 0)|
  {
    hide Typed, Bytes;
    assert ([x] + rest)[1..] == rest;
  }

  lemma ThreeZeros(rest: seq<Item>)
    requires forall item <- rest :: Typed(item)
    ensures Typed(U32(0))
    ensures |BytesAll([U32(0)] + ([U32(0)] + ([U32(0)] + rest)), 0, 0)| == 3 + |BytesAll(rest, 0, 0)|
  {
    ZeroLength();
    hide Typed, Bytes, BytesAll;
    BytesCons(U32(0), rest);
    BytesCons(U32(0), [U32(0)] + rest);
    BytesCons(U32(0), [U32(0)] + ([U32(0)] + rest));
  }

  lemma LostBytes(text: seq<byte>, tag: Item)
    requires |text| == 4089 && Typed(tag) && |Bytes(tag, 0, 0)| == 1
    ensures Typed(U32(0)) && Typed(Str(Vint, text)) && Typed(Str(Vint, []))
    ensures |BytesAll([tag] + ([U32(0)] + ([U32(0)] + ([U32(0)] + [Str(Vint, text), Str(Vint, [])]))), 0, 0)| == BASE
  {
    StringLength(text);
    StringLength([]);
    var last, strs := [Str(Vint, [])], [Str(Vint, text), Str(Vint, [])];
    assert Typed(Str(Vint, text)) && Typed(Str(Vint, []));
    hide Typed, Bytes, BytesAll;
    ThreeZeros(strs);
    BytesCons(Str(Vint, []), []);
    BytesCons(Str(Vint, text), last);
    BytesCons(tag, [U32(0)] + ([U32(0)] + ([U32(0)] + strs)));
    assert [Str(Vint, [])] + [] == last && [Str(Vint, text)] + last == strs;
    NoItems();
  }

  function Lost(text: seq<byte>): Message {
    Message(Resp(0, 0, 0, text), Body([]))
  }

  lemma LostLayout(text: seq<byte>)
    ensures Layout(Lost(text)) == [Fixed(8, false, RESPONSE)] + ([U32(0)] + ([U32(0)] + ([U32(0)] + [Str(Vint, text), Str(Vint, [])])))
    ensures forall item <- Layout(Lost(text)) ::
              item in {Fixed(8, false, RESPONSE), U32(0), Str(Vint, text), Str(Vint, [])}
  {
  }

  lemma LostSendable(text: seq<byte>)
    requires |text| == 4089
    ensures Sendable(Lost(text))
  {
    hide Typed, Bytes, LengthFits, Layout, Lost;
    LostLayout(text);
    StringLength(text);
    StringLength([]);
    NotStrings();
    TagLength();
    LostBytes(text, Fixed(8, false, RESPONSE));
  }

  /** A response without a body that fills a chunk exactly, and so is lost: 4089 bytes of text. */
  lemma LostMessage(text: seq<byte>)
    requires |text| == 4089
    ensures var m := Message(Resp(0, 0, 0, text), Body([]));
            Sendable(m) && m.body.bytes == [] && |Wire(m)| == BASE
  {
    hide Typed, Bytes, BytesAll, LengthFits, Layout, Sendable;
    LostSendable(text);
    LostLayout(text);
    TagLength();
    LostBytes(text, Fixed(8, false, RESPONSE));
  }

  lemma TagLength()
    ensures Typed(Fixed(8, false, RESPONSE)) && |Bytes(Fixed(8, false, RESPONSE), 0, 0)| == 1
  {
    Pow2Times256(0);
  }

  lemma NoItems()
    ensures |BytesAll([], 0, 0)| == 0
  {
  }

  lemma NotStrings()
    ensures LengthFits(U32(0)) && LengthFits(Fixed(8, false, RESPONSE))
  {
  }

  /**
   End to end: a message sent as a frame and received at the other end, by hosts of the same or
   the other byte order, over any sequence of partial transfers, arrives as it was, and the
   bytes behind the frame are untouched; the one exception is an empty body that makes the
   message a multiple of the chunk size long.
   */
  method Transfer(sender: SocketStream, receiver: SocketStream, m: Message, gz: Gzip,
                  gzipMin: nat, maxLength: nat, from: int, to: int, rest: seq<byte>) returns (r: Result)
    requires sender.socket != receiver.socket && sender.socket.connected && receiver.socket.connected
    requires IsOrder(from) && IsOrder(to) && Sendable(m) && m.body.Body?
    requires 1 <= |Carried(m, gz, gzipMin)| < Min(maxLength, LENGTH_END)
    requires gz.unpack(gz.pack(Wire(m))) == Some(Wire(m))
    modifies sender.socket`sent, receiver.socket`incoming
    ensures r == Msg(m) <==> !(m.body.bytes == [] && |Wire(m)| % BASE == 0)
    ensures r == Msg(m) || r == Crash
    ensures receiver.socket.incoming == rest
  {
    hide Sendable, Wire, Grown, Header, Zipped, Pow2, Parses;
    LengthsFit();
    ghost var before := sender.socket.sent;
    var rt := SerializeTo(sender, m, gz, gzipMin, from);
    var frame := sender.socket.sent[|sender.socket.sent| - rt..];
    assert frame == Frame(m, gz, gzipMin, from);
    FrameNeutral(m, gz, gzipMin, from, to);
    receiver.socket.incoming := frame + rest;
    FrameReads(m, gz, gzipMin, maxLength, to, rest);
    r := ParseFrom(receiver, gz, maxLength, to);
    GrownExact(BASE, |Wire(m)|);
  }
}
