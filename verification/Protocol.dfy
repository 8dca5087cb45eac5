/**
 The message types of sylar/protocol.cc and, with a body behind the fields, those of
 sylar/rock/rock_protocol.cc. A message serialises itself as a type byte, its fields and its
 body, and parses the fields and the body back once the type byte has been read.
 */
module Protocol {
  import opened Bits
  import opened FlatBuffer
  import opened ByteArrays
  import opened Items
  import opened Codec
  import V = Varint

  const REQUEST: nat := 1
  const RESPONSE: nat := 2
  const NOTIFY: nat := 3

  datatype Head =
    | Req(sn: nat, cmd: nat)
    | Resp(sn: nat, cmd: nat, result: nat, resultStr: seq<byte>)
    | Note(notify: nat)

  datatype Body = NoBody | Body(bytes: seq<byte>)

  datatype Message = Message(head: Head, body: Body)

  datatype Parsed = Known(msg: Message) | UnknownType(code: int)

  function TypeOf(h: Head): nat {
    match h
    case Req(_, _) => REQUEST
    case Resp(_, _, _, _) => RESPONSE
    case Note(_) => NOTIFY
  }

  function U32(v: nat): Item {
    Var(32, false, v)
  }

  const U32_KIND: Kind := VarKind(32, false)

  function Fields(m: Message): seq<Item> {
    var head :=
      match m.head
      case Req(sn, cmd) => [U32(sn), U32(cmd)]
      case Resp(sn, cmd, result, str) => [U32(sn), U32(cmd), U32(result), Str(Vint, str)]
      case Note(n) => [U32(n)];
    match m.body
    case NoBody => head
    case Body(bytes) => head + [Str(Vint, bytes)]
  }

  /** The writes of serializeToByteArray, in order. */
  function Layout(m: Message): seq<Item> {
    [Fixed(8, false, TypeOf(m.head))] + Fields(m)
  }

  /** The reads of parseFromByteArray, in order. */
  function FieldKinds(code: int, body: bool): seq<Kind> {
    (if code == REQUEST then [U32_KIND, U32_KIND]
     else if code == RESPONSE then [U32_KIND, U32_KIND, U32_KIND, StrKind(Vint)]
     else [U32_KIND])
    + (if body then [StrKind(Vint)] else [])
  }

  function Number(item: Item): nat {
    if item.Var? && item.value >= 0 then item.value else 0
  }

  function Text(item: Item): seq<byte> {
    if item.Str? then item.bytes else []
  }

  /** The message whose fields were read. */
  function Build(code: int, items: seq<Item>, body: bool): Message
    requires |items| == |FieldKinds(code, body)|
  {
    Message(
      if code == REQUEST then Req(Number(items[0]), Number(items[1]))
      else if code == RESPONSE then
        Resp(Number(items[0]), Number(items[1]), Number(items[2]), Text(items[3]))
      else Note(Number(items[0])),
      if body then Body(Text(items[|items| - 1])) else NoBody)
  }

  lemma BuildFields(m: Message)
    ensures |Fields(m)| == |FieldKinds(TypeOf(m.head), m.body.Body?)|
    ensures Build(TypeOf(m.head), Fields(m), m.body.Body?) == m
  {
  }

  /** The fields have their 32-bit types and the strings lengths below 2^64. */
  predicate Sendable(m: Message) {
    && (forall item <- Layout(m) :: Typed(item))
    && (forall item <- Layout(m) :: LengthFits(item))
  }

  /** Reads the type byte, then the fields of that type. */
  ghost function ParseMessage(b: Buffer, body: bool, host: int): (r: Reply<Parsed>)
    requires b.Sane()
    ensures r.1.Sane() && r.1 == b.(pos := r.1.pos)
  {
    var (t, b1) := ParseFixed(b, 8, false, host);
    match t
    case OutOfRange => (OutOfRange, b1)
    case NullCursor => (NullCursor, b1)
    case Ok(code) =>
      if code != REQUEST && code != RESPONSE && code != NOTIFY then (Ok(UnknownType(code)), b1)
      else
        var (fs, b2) := ParseAll(b1, FieldKinds(code, body), host);
        match fs
        case OutOfRange => (OutOfRange, b2)
        case NullCursor => (NullCursor, b2)
        case Ok(items) =>
          assert |items| == |FieldKinds(code, body)| by { ParseAllLength(b1, FieldKinds(code, body), host); }
          (Ok(Known(Build(code, items, body))), b2)
  }

  lemma {:induction false} ParseAllLength(b: Buffer, ks: seq<Kind>, host: int)
    requires b.Sane() && forall i :: 0 <= i < |ks| ==> TypedKind(ks[i])
    ensures ParseAll(b, ks, host).0.Ok? ==> |ParseAll(b, ks, host).0.value| == |ks|
    decreases |ks|
  {
    hide Parse, TypedKind;
    if ks != [] {
      ParseAllLength(Parse(b, ks[0], host).1, ks[1..], host);
    }
  }

  lemma FieldsKinds(m: Message)
    requires forall item <- Fields(m) :: Typed(item)
    ensures Kinds(Fields(m)) == FieldKinds(TypeOf(m.head), m.body.Body?)
  {
    hide Typed, LengthFits;
    var items := Fields(m);
    KindsTail(items, 0);
    KindsTail(items, 1);
    KindsTail(items, 2);
    KindsTail(items, 3);
    KindsTail(items, 4);
    KindsTail(items, 5);
    assert items[0..] == items;
  }

  lemma KindsTail(items: seq<Item>, i: nat)
    requires forall item <- items :: Typed(item)
    ensures i >= |items| || Kinds(items[i..]) == [KindOf(items[i])] + Kinds(items[i + 1..])
    ensures i == |items| ==> Kinds(items[i..]) == []
  {
    if i < |items| {
      assert items[i..][1..] == items[i + 1..];
    }
  }

  lemma FieldsOfLayout(m: Message)
    requires Sendable(m)
    ensures Fields(m) != [] && Layout(m) != []
    ensures Layout(m)[|Layout(m)| - 1] == Fields(m)[|Fields(m)| - 1]
    ensures forall item <- Layout(m) :: Typed(item)
    ensures forall item <- Fields(m) :: Typed(item)
    ensures forall item <- Fields(m) :: LengthFits(item)
  {
    hide Typed, LengthFits;
    assert forall item <- Fields(m) :: item in Layout(m);
  }

  /** The type byte of a message is read first, and its fields follow. */
  lemma TypeByte(b: Buffer, m: Message, host: int)
    requires b.Sane() && Sendable(m) && Next(b, BytesAll(Layout(m), b.endian, host))
    ensures forall item <- Fields(m) :: Typed(item)
    ensures ParseFixed(b, 8, false, host) == (Ok(TypeOf(m.head)), b.(pos := b.pos + 1))
    ensures b.pos + 1 <= b.size && Next(b.(pos := b.pos + 1), BytesAll(Fields(m), b.endian, host))
    ensures |BytesAll(Layout(m), b.endian, host)| == 1 + |BytesAll(Fields(m), b.endian, host)|
  {
    hide ParseFixed;
    var t := Layout(m)[0];
    assert Layout(m)[1..] == Fields(m);
    assert forall item <- Fields(m) :: item in Layout(m);
    assert Typed(t);
    hide Typed, Sendable, Bytes;
    NextSplit(b, Bytes(t, b.endian, host), BytesAll(Fields(m), b.endian, host));
    FixedRoundTrip(b, 8, false, TypeOf(m.head), host);
  }

  /**
   A serialised message parses back to itself and leaves the cursor behind it, exactly unless
   its last field is an empty string that ends at the end of the memory; then the parser
   dereferences the null chunk.
   */
  lemma MessageRoundTrip(b: Buffer, m: Message, host: int)
    requires b.Sane() && Sendable(m) && Next(b, BytesAll(Layout(m), b.endian, host))
    ensures var len := |BytesAll(Layout(m), b.endian, host)|;
            !EndsEmptyAtEnd(b, Layout(m), host) ==>
              ParseMessage(b, m.body.Body?, host) == (Ok(Known(m)), b.(pos := b.pos + len))
    ensures EndsEmptyAtEnd(b, Layout(m), host) ==> ParseMessage(b, m.body.Body?, host).0 == NullCursor
  {
    hide Typed, LengthFits, Sendable, BytesAll, Build, ParseFixed, Bytes, Fields, Layout, ParseAll, Kinds, FieldKinds;
    FieldsOfLayout(m);
    TypeByte(b, m, host);
    FieldsKinds(m);
    BuildFields(m);
    var b1 := b.(pos := b.pos + 1);
    assert EndsEmptyAtEnd(b, Layout(m), host) <==> EndsEmptyAtEnd(b1, Fields(m), host);
    if EndsEmptyAtEnd(b1, Fields(m), host) {
      SequenceFails(b1, Fields(m), host);
    } else {
      SequenceReads(b1, Fields(m), host);
    }
  }

  /** A type byte other than 1, 2 and 3 is all that is read of its message; without one nothing is. */
  lemma UnknownTypes(b: Buffer, body: bool, host: int)
    requires b.Sane()
    ensures b.Readable() == [] ==> ParseMessage(b, body, host) == (OutOfRange, b)
    ensures b.Readable() != [] && b.Readable()[0] !in {1, 2, 3} ==>
              ParseMessage(b, body, host) == (Ok(UnknownType(b.Readable()[0])), b.(pos := b.pos + 1))
  {
    if b.Readable() != [] {
      assert b.mem[b.pos..b.pos + 1][0] == b.Readable()[0];
    }
  }

  // ---------- Messages back to back ----------

  function MessageBytes(m: Message, endian: int, host: int): (s: seq<byte>)
    requires Sendable(m)
    ensures |s| >= 1
  {
    BytesAll(Layout(m), endian, host)
  }

  lemma BytesTail(items: seq<Item>, i: nat, endian: int, host: int)
    requires forall item <- items :: Typed(item)
    ensures i < |items| ==> Typed(items[i])
    ensures i < |items| ==> BytesAll(items[i..], endian, host) == Bytes(items[i], endian, host) + BytesAll(items[i + 1..], endian, host)
    ensures i == |items| ==> BytesAll(items[i..], endian, host) == []
  {
    hide Typed, Bytes;
    if i < |items| {
      assert items[i..][1..] == items[i + 1..];
    }
  }

  lemma TextBytes(text: seq<byte>, endian: int, host: int)
    requires LengthFits(Str(Vint, text))
    ensures Bytes(Str(Vint, text), endian, host) == V.Encode(|text|) + text
  {
    hide V.Encode, Trunc, Pow2;
    TruncSmall(|text|, 64);
  }

  lemma NumberBytes(v: nat, endian: int, host: int)
    requires Typed(U32(v))
    ensures Bytes(U32(v), endian, host) == V.Encode(v)
  {
  }

  lemma OneNumber(items: seq<Item>, i: nat, v: nat, endian: int, host: int)
    requires (forall item <- items :: Typed(item)) && i < |items| && items[i] == U32(v)
    ensures BytesAll(items[i..], endian, host) == V.Encode(v) + BytesAll(items[i + 1..], endian, host)
  {
    hide Typed, Bytes, BytesAll, V.Encode;
    BytesTail(items, i, endian, host);
    NumberBytes(v, endian, host);
  }

  lemma TwoNumbers(items: seq<Item>, v: nat, u: nat, endian: int, host: int)
    requires (forall item <- items :: Typed(item)) && |items| >= 3 && items[1] == U32(v) && items[2] == U32(u)
    ensures BytesAll(items[1..], endian, host) == (V.Encode(v) + V.Encode(u)) + BytesAll(items[3..], endian, host)
  {
    hide Typed, BytesAll, V.Encode;
    OneNumber(items, 1, v, endian, host);
    OneNumber(items, 2, u, endian, host);
  }

  lemma OneText(items: seq<Item>, i: nat, text: seq<byte>, endian: int, host: int)
    requires (forall item <- items :: Typed(item)) && i < |items| && items[i] == Str(Vint, text) && LengthFits(items[i])
    ensures BytesAll(items[i..], endian, host) == V.Encode(|text|) + text + BytesAll(items[i + 1..], endian, host)
  {
    hide Typed, Bytes, BytesAll, V.Encode, LengthFits;
    BytesTail(items, i, endian, host);
    TextBytes(text, endian, host);
  }

  lemma ResponseBytes(items: seq<Item>, v: nat, u: nat, r: nat, text: seq<byte>, endian: int, host: int)
    requires (forall item <- items :: Typed(item)) && |items| >= 5
    requires items[1] == U32(v) && items[2] == U32(u) && items[3] == U32(r)
    requires items[4] == Str(Vint, text) && LengthFits(items[4])
    ensures BytesAll(items[1..], endian, host)
         == (V.Encode(v) + V.Encode(u) + V.Encode(r) + V.Encode(|text|) + text) + BytesAll(items[5..], endian, host)
  {
    hide Typed, BytesAll, V.Encode, LengthFits;
    TwoNumbers(items, v, u, endian, host);
    OneNumber(items, 3, r, endian, host);
    OneText(items, 4, text, endian, host);
  }

  /** The last item and what follows it, which is nothing. */
  lemma LastBytes(m: Message, endian: int, host: int)
    requires Sendable(m)
    ensures forall item <- Layout(m) :: Typed(item)
    ensures BytesAll(Layout(m), endian, host) == [TypeOf(m.head)] + BytesAll(Layout(m)[1..], endian, host)
    ensures BytesAll(Layout(m)[if m.body.Body? then |Layout(m)| - 1 else |Layout(m)|..], endian, host)
         == if m.body.Body? then V.Encode(|m.body.bytes|) + m.body.bytes else []
  {
    var items, n := Layout(m), |Layout(m)|;
    var tag := Fixed(8, false, TypeOf(m.head));
    assert items[0] == tag && Bytes(tag, endian, host) == [TypeOf(m.head)];
    assert m.body.Body? ==> items[n - 1] == Str(Vint, m.body.bytes);
    assert forall k :: 0 <= k < n ==> LengthFits(items[k]);
    hide Typed, LengthFits, Bytes, BytesAll, V.Encode, Layout;
    assert items[0..] == items;
    BytesTail(items, 0, endian, host);
    BytesTail(items, n, endian, host);
    if m.body.Body? {
      OneText(items, n - 1, m.body.bytes, endian, host);
    }
  }

  /** The items between the type and the body, by their places. */
  lemma LayoutIs(m: Message)
    requires Sendable(m)
    ensures var items, n := Layout(m), |Layout(m)| - if m.body.Body? then 1 else 0;
      match m.head
      case Req(sn, cmd) => n == 3 && items[1] == U32(sn) && items[2] == U32(cmd)
      case Resp(sn, cmd, result, str) =>
        && n == 5 && items[1] == U32(sn) && items[2] == U32(cmd) && items[3] == U32(result)
        && items[4] == Str(Vint, str) && LengthFits(items[4])
      case Note(notify) => n == 2 && items[1] == U32(notify)
  {
    assert forall k :: 0 <= k < |Layout(m)| ==> LengthFits(Layout(m)[k]);
    hide Typed, LengthFits;
  }

  lemma TypeFirst(m: Message, endian: int, host: int, head: seq<byte>, tail: seq<byte>)
    requires Sendable(m)
    requires tail == if m.body.Body? then V.Encode(|m.body.bytes|) + m.body.bytes else []
    requires BytesAll(Layout(m)[1..], endian, host)
          == head + BytesAll(Layout(m)[if m.body.Body? then |Layout(m)| - 1 else |Layout(m)|..], endian, host)
    ensures MessageBytes(m, endian, host) == [TypeOf(m.head)] + head + tail
  {
    hide BytesAll, V.Encode, Layout, Sendable, TypeOf;
    LastBytes(m, endian, host);
    assert [TypeOf(m.head)] + (head + tail) == [TypeOf(m.head)] + head + tail;
  }

  /**
   The bytes of a message: 1, sn and cmd for a request; 2, sn, cmd, result and text for a
   response; 3 and the number for a notification; numbers as varints, strings as a varint of
   their length and the bytes, and the body, if the message has one, as such a string.
   */
  lemma MessageBytesAre(m: Message, endian: int, host: int)
    requires Sendable(m)
    ensures MessageBytes(m, endian, host)
         == (match m.head
             case Req(sn, cmd) => [1] + (V.Encode(sn) + V.Encode(cmd))
             case Resp(sn, cmd, result, str) =>
               [2] + (V.Encode(sn) + V.Encode(cmd) + V.Encode(result) + V.Encode(|str|) + str)
             case Note(notify) => [3] + V.Encode(notify))
            + (if m.body.Body? then V.Encode(|m.body.bytes|) + m.body.bytes else [])
  {
    var items, tail := Layout(m), if m.body.Body? then V.Encode(|m.body.bytes|) + m.body.bytes else [];
    assert forall item <- items :: Typed(item);
    LayoutIs(m);
    hide Typed, LengthFits, BytesAll, V.Encode, Layout, Sendable, MessageBytes;
    match m.head
    case Req(sn, cmd) =>
      TwoNumbers(items, sn, cmd, endian, host);
      TypeFirst(m, endian, host, V.Encode(sn) + V.Encode(cmd), tail);
    case Resp(sn, cmd, result, str) =>
      ResponseBytes(items, sn, cmd, result, str, endian, host);
      TypeFirst(m, endian, host, V.Encode(sn) + V.Encode(cmd) + V.Encode(result) + V.Encode(|str|) + str, tail);
    case Note(n) =>
      OneNumber(items, 1, n, endian, host);
      TypeFirst(m, endian, host, V.Encode(n), tail);
  }

  function MessagesBytes(ms: seq<Message>, endian: int, host: int): (s: seq<byte>)
    requires forall m <- ms :: Sendable(m)
    ensures ms != [] ==> |s| >= 1
  {
    if ms == [] then []
    else
      assert Sendable(ms[0]);
      MessageBytes(ms[0], endian, host) + MessagesBytes(ms[1..], endian, host)
  }

  ghost function ParseMessages(b: Buffer, n: nat, body: bool, host: int): (r: Reply<seq<Parsed>>)
    requires b.Sane()
    ensures r.1.Sane() && r.1 == b.(pos := r.1.pos)
    decreases n
  {
    if n == 0 then (Ok([]), b)
    else
      var (o, b1) := ParseMessage(b, body, host);
      match o
      case OutOfRange => (OutOfRange, b1)
      case NullCursor => (NullCursor, b1)
      case Ok(m) =>
        var (os, b2) := ParseMessages(b1, n - 1, body, host);
        (match os
         case Ok(ms) => Ok([m] + ms)
         case OutOfRange => OutOfRange
         case NullCursor => NullCursor, b2)
  }

  function AllKnown(ms: seq<Message>): seq<Parsed> {
    if ms == [] then [] else [Known(ms[0])] + AllKnown(ms[1..])
  }

  /** The last field written for the message is an empty string. */
  predicate EndsEmpty(m: Message) {
    if m.body.Body? then m.body.bytes == [] else m.head.Resp? && m.head.resultStr == []
  }

  lemma EndsEmptyIs(b: Buffer, m: Message, host: int)
    requires Sendable(m)
    ensures EndsEmptyAtEnd(b, Layout(m), host)
       <==> EndsEmpty(m) && b.pos + |BytesAll(Layout(m), b.endian, host)| == |b.mem|
  {
    hide Typed, LengthFits, BytesAll;
  }

  /**
   Messages serialised back to back parse back to the same list, with the cursor exactly
   behind them, unless the last one ends with an empty string at the end of the memory.
   */
  lemma {:induction false} MessagesRoundTrip(b: Buffer, ms: seq<Message>, body: bool, host: int)
    requires b.Sane() && (forall m <- ms :: Sendable(m)) && (forall m <- ms :: m.body.Body? == body)
    requires Next(b, MessagesBytes(ms, b.endian, host))
    ensures var len := |MessagesBytes(ms, b.endian, host)|;
            if ms != [] && EndsEmpty(ms[|ms| - 1]) && b.pos + len == |b.mem|
            then ParseMessages(b, |ms|, body, host).0 == NullCursor
            else ParseMessages(b, |ms|, body, host) == (Ok(AllKnown(ms)), b.(pos := b.pos + len))
    decreases |ms|
  {
    hide Sendable, BytesAll, Layout, ParseMessage, EndsEmpty;
    if ms != [] {
      var m, rest := ms[0], ms[1..];
      var bm := MessageBytes(m, b.endian, host);
      NextSplit(b, bm, MessagesBytes(rest, b.endian, host));
      EndsEmptyIs(b, m, host);
      MessageRoundTrip(b, m, host);
      FieldsOfLayout(m);
      if rest != [] || !EndsEmptyAtEnd(b, Layout(m), host) {
        MessagesRoundTrip(b.(pos := b.pos + |bm|), rest, body, host);
      }
    }
  }

  // ---------- The message objects ----------

  /** The items read before the first failure, if any. */
  ghost function ReadBefore(b: Buffer, ks: seq<Kind>, host: int): (r: seq<Item>)
    requires b.Sane() && forall i :: 0 <= i < |ks| ==> TypedKind(ks[i])
    ensures |r| <= |ks|
    ensures match ParseAll(b, ks, host).0 case Ok(items) => r == items && |r| == |ks| case _ => |r| < |ks|
    decreases |ks|
  {
    if ks == [] then []
    else
      var (o, b') := Parse(b, ks[0], host);
      match o
      case Ok(x) => [x] + ReadBefore(b', ks[1..], host)
      case _ => []
  }

  /** Typed reads one after the other, each item kept as it comes. */
  method ReadEach(ba: ByteArray, kinds: seq<Kind>) returns (items: seq<Item>, o: Outcome<seq<Item>>)
    requires ba.Valid() && forall i :: 0 <= i < |kinds| ==> TypedKind(kinds[i])
    modifies ba`position, ba`cur
    ensures ba.Valid() && old(ba.State()).Sane()
    ensures (o, ba.State()) == ParseAll(old(ba.State()), kinds, ba.host)
    ensures items == ReadBefore(old(ba.State()), kinds, ba.host)
    decreases |kinds|
  {
    hide Parse, TypedKind;
    ba.StateSane();
    if kinds == [] {
      return [], Ok([]);
    }
    var item := ReadItem(ba, kinds[0]);
    if item.OutOfRange? {
      return [], OutOfRange;
    }
    if item.NullCursor? {
      return [], NullCursor;
    }
    items, o := ReadEach(ba, kinds[1..]);
    items, o := [item.value] + items, Prepend(item.value, o);
  }

  /** The message with its first fields replaced. */
  function Overlaid(m: Message, items: seq<Item>): Message
    requires |items| <= |Fields(m)|
  {
    BuildFields(m);
    Build(TypeOf(m.head), items + Fields(m)[|items|..], m.body.Body?)
  }

  /** Items of the right kinds make a message of that type with these fields. */
  lemma FieldsBuild(m: Message, items: seq<Item>)
    requires |items| == |Fields(m)| == |FieldKinds(TypeOf(m.head), m.body.Body?)|
    requires forall i :: 0 <= i < |items| ==>
               KindOf(items[i]) == KindOf(Fields(m)[i]) && (items[i].Var? ==> items[i].value >= 0)
    ensures var m' := Build(TypeOf(m.head), items, m.body.Body?);
            TypeOf(m'.head) == TypeOf(m.head) && Fields(m') == items
  {
  }

  /** The fields read are the new ones, and the fields behind them the old ones. */
  lemma OverlaidFields(m: Message, items: seq<Item>)
    requires |items| <= |Fields(m)|
    requires forall i :: 0 <= i < |items| ==>
               KindOf(items[i]) == KindOf(Fields(m)[i]) && (items[i].Var? ==> items[i].value >= 0)
    ensures TypeOf(Overlaid(m, items).head) == TypeOf(m.head)
    ensures Fields(Overlaid(m, items)) == items + Fields(m)[|items|..]
  {
    BuildFields(m);
    var all := items + Fields(m)[|items|..];
    assert forall i :: |items| <= i < |all| ==> all[i] == Fields(m)[i] && (all[i].Var? ==> all[i].value >= 0);
    hide Fields, Build, FieldKinds, TypeOf;
    FieldsBuild(m, all);
  }

  /** A message object; the type of its head is fixed, the contents are assigned by parsing. */
  class MessageObject {
    var head: Head
    var body: Body

    constructor (head: Head, body: Body)
      ensures this.head == head && this.body == body
    {
      this.head, this.body := head, body;
    }

    ghost function Contents(): Message
      reads this
    {
      Message(head, body)
    }

    method SerializeToByteArray(ba: ByteArray)
      requires ba.Valid() && this !in ba.Repr && Sendable(Contents())
      modifies ba.Repr
      ensures ba.Valid() && fresh(ba.Repr - old(ba.Repr)) && old(ba.State()).Sane()
      ensures Writes(old(ba.State()), BytesAll(Layout(Contents()), old(ba.endian), ba.host), ba.State())
    {
      hide Typed, LengthFits, BytesAll, Layout;
      WriteAll(ba, Layout(Message(head, body)));
    }

    /** The fields are assigned in order, up to the first read that fails. */
    method ParseFromByteArray(ba: ByteArray) returns (r: Outcome<Message>)
      requires ba.Valid()
      modifies this, ba`position, ba`cur
      ensures ba.Valid() && old(ba.State()).Sane()
      ensures ParseAll(old(ba.State()), FieldKinds(TypeOf(old(head)), old(body).Body?), ba.host).1 == ba.State()
      ensures r.Ok? <==> ParseAll(old(ba.State()), FieldKinds(TypeOf(old(head)), old(body).Body?), ba.host).0.Ok?
      ensures r.OutOfRange? <==> ParseAll(old(ba.State()), FieldKinds(TypeOf(old(head)), old(body).Body?), ba.host).0.OutOfRange?
      ensures r.Ok? ==>
                var items := ParseAll(old(ba.State()), FieldKinds(TypeOf(old(head)), old(body).Body?), ba.host).0.value;
                |items| == |FieldKinds(TypeOf(old(head)), old(body).Body?)|
                && r.value == Contents() == Build(TypeOf(old(head)), items, old(body).Body?)
      ensures var got := ReadBefore(old(ba.State()), FieldKinds(TypeOf(old(head)), old(body).Body?), ba.host);
              |got| <= |Fields(old(Contents()))| && Contents() == Overlaid(old(Contents()), got)
    {
      hide ParseAll, Build, Fields, ReadBefore;
      ba.StateSane();
      var m := Message(head, body);
      BuildFields(m);
      var items, o := ReadEach(ba, FieldKinds(TypeOf(head), body.Body?));
      var now := Overlaid(m, items);
      head, body := now.head, now.body;
      if o.OutOfRange? {
        return OutOfRange;
      }
      if o.NullCursor? {
        return NullCursor;
      }
      assert items + Fields(m)[|items|..] == items;
      return Ok(now);
    }
  }

  function Fresh(code: int): Head {
    if code == REQUEST then Req(0, 0)
    else if code == RESPONSE then Resp(0, 0, 404, UNHANDLE)
    else Note(0)
  }

  /** The default result text of a response. */
  const UNHANDLE: seq<byte> := [117, 110, 104, 97, 110, 100, 108, 101]

  /** Reads a type byte, makes an object of that type and lets it parse itself. */
  method ReadMessage(ba: ByteArray, body: bool) returns (r: Outcome<Parsed>)
    requires ba.Valid()
    modifies ba`position, ba`cur
    ensures ba.Valid() && old(ba.State()).Sane()
    ensures (r, ba.State()) == ParseMessage(old(ba.State()), body, ba.host)
  {
    hide ParseFixed, ParseAll, Build, FieldKinds;
    var t := ReadFixed(ba, 8, false);
    if t.OutOfRange? {
      return OutOfRange;
    }
    if t.NullCursor? {
      return NullCursor;
    }
    var code := t.value;
    if code != REQUEST && code != RESPONSE && code != NOTIFY {
      return Ok(UnknownType(code));
    }
    var msg := new MessageObject(Fresh(code), if body then Body([]) else NoBody);
    var o := msg.ParseFromByteArray(ba);
    if o.OutOfRange? {
      return OutOfRange;
    }
    if o.NullCursor? {
      return NullCursor;
    }
    return Ok(Known(o.value));
  }

  // ---------- Lists of messages on the array ----------

  method WriteMessages(ba: ByteArray, ms: seq<Message>)
    requires ba.Valid() && forall m <- ms :: Sendable(m)
    modifies ba.Repr
    ensures ba.Valid() && fresh(ba.Repr - old(ba.Repr)) && old(ba.State()).Sane()
    ensures Writes(old(ba.State()), MessagesBytes(ms, old(ba.endian), ba.host), ba.State())
    decreases |ms|
  {
    hide Sendable, BytesAll, Layout, WritesWithin;
    ba.StateSane();
    ghost var b0 := ba.State();
    if ms == [] {
      WritesNothing(b0);
      return;
    }
    var msg := new MessageObject(ms[0].head, ms[0].body);
    assert msg.Contents() == ms[0];
    msg.SerializeToByteArray(ba);
    ghost var b1 := ba.State();
    assert b1.endian == b0.endian by { WritesKeeps(b0, MessageBytes(ms[0], b0.endian, ba.host), b1); }
    WriteMessages(ba, ms[1..]);
    WritesCompose(b0, MessageBytes(ms[0], b0.endian, ba.host), b1, MessagesBytes(ms[1..], b0.endian, ba.host), ba.State());
  }

  lemma WritesKeeps(b: Buffer, data: seq<byte>, b': Buffer)
    requires b.Sane() && Writes(b, data, b')
    ensures b'.endian == b.endian
  {
  }

  method ReadMessages(ba: ByteArray, n: nat, body: bool) returns (r: Outcome<seq<Parsed>>)
    requires ba.Valid()
    modifies ba`position, ba`cur
    ensures ba.Valid() && old(ba.State()).Sane()
    ensures (r, ba.State()) == ParseMessages(old(ba.State()), n, body, ba.host)
    decreases n
  {
    hide ParseMessage;
    ba.StateSane();
    if n == 0 {
      return Ok([]);
    }
    var o := ReadMessage(ba, body);
    if o.OutOfRange? {
      return OutOfRange;
    }
    if o.NullCursor? {
      return NullCursor;
    }
    var os := ReadMessages(ba, n - 1, body);
    match os
    case Ok(ms) => return Ok([o.value] + ms);
    case OutOfRange => return OutOfRange;
    case NullCursor => return NullCursor;
  }

  /**
   On the array itself: any list of messages written at the cursor, and read from there, comes
   back with the cursor behind it, unless the last message ends with an empty string exactly
   where the memory, as it has to grow for them, ends; then the read meets the null chunk.
   */
  method WriteThenReadMessages(ba: ByteArray, ms: seq<Message>, body: bool) returns (r: Outcome<seq<Parsed>>)
    requires ba.Valid() && (forall m <- ms :: Sendable(m)) && (forall m <- ms :: m.body.Body? == body)
    modifies ba.Repr
    ensures ba.Valid() && old(ba.State()).Sane()
    ensures var end := old(ba.position) + |MessagesBytes(ms, old(ba.endian), ba.host)|;
            if ms != [] && EndsEmpty(ms[|ms| - 1]) && end == Grown(old(ba.capacity), ba.baseSize, end)
            then r == NullCursor
            else r == Ok(AllKnown(ms)) && ba.position == end
  {
    hide Sendable, MessagesBytes, ParseMessages, EndsEmpty, AllKnown;
    ba.StateSane();
    var start := ba.position;
    WriteMessages(ba, ms);
    ghost var b1 := ba.State();
    var back := ba.SetPosition(start);
    ghost var b2 := ba.State();
    ba.StateSane();
    WritesSlices(old(ba.State()), MessagesBytes(ms, old(ba.endian), ba.host), b1);
    MessagesRoundTrip(b2, ms, body, ba.host);
    r := ReadMessages(ba, |ms|, body);
  }
}
