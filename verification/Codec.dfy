/**
 The typed reads and writes of sylar/bytearray.cc, on the byte array itself. Each is proved
 against the bytes, and the replies, of `Items`.
 */
module Codec {
  import opened Bits
  import opened FlatBuffer
  import opened FixedInt
  import opened ByteArrays
  import opened Items
  import V = Varint

  /** writeFint and writeFuint of 8, 16, 32 and 64 bits. */
  method WriteFixed(ba: ByteArray, w: nat, v: int)
    requires ba.Valid() && FixedWidth(w)
    modifies ba.Repr
    ensures ba.Valid() && fresh(ba.Repr - old(ba.Repr))
    ensures old(ba.State()).Sane() && Writes(old(ba.State()), FixedBytes(v, w, old(ba.endian), ba.host), ba.State())
    ensures IsOrder(old(ba.endian)) && IsOrder(ba.host) ==>
              forall i :: 0 <= i < w / 8 ==> ba.mem[old(ba.position) + i] == Digit(v, Rank(i, w / 8, old(ba.endian)))
  {
    hide Digit, Pow2;
    if IsOrder(ba.endian) && IsOrder(ba.host) {
      forall i | 0 <= i < w / 8
        ensures FixedBytes(v, w, ba.endian, ba.host)[i] == Digit(v, Rank(i, w / 8, ba.endian))
      {
        FixedDigits(v, w, ba.endian, ba.host, i);
      }
    }
    if w == 8 {
      ba.Write([v % 0x100]);
    } else {
      var u := Wrap(v, w);
      if ba.endian != ba.host {
        u := ByteSwap(u, w / 8);
      }
      ba.Write(Image(u, w / 8, ba.host));
    }
  }

  /** The continuation byte of the writing loop. */
  lemma ContinuationByte(v: nat)
    ensures Or(And(v, 0x7F), 0x80) == v % 0x80 + 0x80
  {
    Digits128(v);
    Pow2Times128(0);
    Shl128(1, 0);
    OrDisjoint(v % 0x80, 1, 7);
  }

  /** The loop of writeUint32 and writeUint64, which never leaves its 5 or 10 byte buffer. */
  method FillVarint(tmp: array<byte>, v: nat) returns (i: nat)
    requires |V.Encode(v)| <= tmp.Length
    modifies tmp
    ensures i <= tmp.Length && tmp[..i] == V.Encode(v)
  {
    i := 0;
    var value := v;
    while value >= 0x80
      invariant i + |V.Encode(value)| <= tmp.Length
      invariant tmp[..i] + V.Encode(value) == V.Encode(v)
    {
      ContinuationByte(value);
      Digits128(value);
      ghost var before := tmp[..i];
      tmp[i] := Or(And(value, 0x7F), 0x80);
      assert tmp[..i + 1] == before + [tmp[i]];
      assert V.Encode(value) == [tmp[i]] + V.Encode(value / 0x80);
      value := Shr(value, 7);
      i := i + 1;
    }
    ghost var before := tmp[..i];
    tmp[i] := value;
    assert tmp[..i + 1] == before + [tmp[i]];
    i := i + 1;
  }

  method WriteUint(ba: ByteArray, w: nat, v: nat)
    requires ba.Valid() && VarWidth(w) && v < Pow2(w)
    modifies ba.Repr
    ensures ba.Valid() && fresh(ba.Repr - old(ba.Repr))
    ensures old(ba.State()).Sane() && Writes(old(ba.State()), V.Encode(v), ba.State())
  {
    hide V.Encode, Pow2;
    V.EncodeFits(v, w);
    var tmp := new byte[if w == 32 then 5 else 10];
    var i := FillVarint(tmp, v);
    ba.Write(tmp[..i]);
  }

  /** writeInt32 and writeInt64 write the ZigZag code. */
  method WriteVar(ba: ByteArray, w: nat, signed: bool, v: int)
    requires ba.Valid() && VarWidth(w) && Fits(v, w, signed)
    modifies ba.Repr
    ensures ba.Valid() && fresh(ba.Repr - old(ba.Repr))
    ensures old(ba.State()).Sane() && Writes(old(ba.State()), V.Encode(Code(v, w, signed)), ba.State())
  {
    hide V.Encode, V.EncodeZigzag, Pow2;
    if signed {
      V.ZigzagMeaning(v, w);
      WriteUint(ba, w, V.EncodeZigzag(v, w));
    } else {
      WriteUint(ba, w, v);
    }
  }

  /** A string is its length, cut to the type of the prefix, and then its bytes. */
  method WriteString(ba: ByteArray, p: Prefix, str: seq<byte>)
    requires ba.Valid()
    modifies ba.Repr
    ensures ba.Valid() && fresh(ba.Repr - old(ba.Repr))
    ensures old(ba.State()).Sane() && Writes(old(ba.State()), Bytes(Str(p, str), old(ba.endian), ba.host), ba.State())
  {
    hide V.Encode, FixedBytes, Pow2, Trunc;
    var w := PrefixWidth(p);
    if p == Vint {
      TruncBound(|str|, w);
      WriteUint(ba, w, Trunc(|str|, w));
    } else {
      WriteFixed(ba, w, |str|);
    }
    ghost var b1 := ba.State();
    ba.Write(str);
    WritesCompose(old(ba.State()), PrefixBytes(|str|, p, old(ba.endian), ba.host), b1, str, ba.State());
  }

  method WriteItem(ba: ByteArray, item: Item)
    requires ba.Valid() && Typed(item)
    modifies ba.Repr
    ensures ba.Valid() && fresh(ba.Repr - old(ba.Repr))
    ensures old(ba.State()).Sane() && Writes(old(ba.State()), Bytes(item, old(ba.endian), ba.host), ba.State())
  {
    match item
    case Fixed(w, s, v) => WriteFixed(ba, w, v);
    case Var(w, s, v) => WriteVar(ba, w, s, v);
    case Str(p, str) => WriteString(ba, p, str);
  }

  /** Any sequence of typed writes writes the bytes of its items, end to end. */
  method WriteAll(ba: ByteArray, items: seq<Item>)
    requires ba.Valid() && forall item <- items :: Typed(item)
    modifies ba.Repr
    ensures ba.Valid() && fresh(ba.Repr - old(ba.Repr))
    ensures old(ba.State()).Sane() && Writes(old(ba.State()), BytesAll(items, old(ba.endian), ba.host), ba.State())
    decreases |items|
  {
    hide Bytes, Typed;
    ba.StateSane();
    if items == [] {
      WritesNothing(ba.State());
      return;
    }
    WriteItem(ba, items[0]);
    ghost var b1 := ba.State();
    WriteAll(ba, items[1..]);
    WritesCompose(old(ba.State()), Bytes(items[0], old(ba.endian), ba.host), b1,
                  BytesAll(items[1..], old(ba.endian), ba.host), ba.State());
  }

  method ReadFixed(ba: ByteArray, w: nat, signed: bool) returns (r: Outcome<int>)
    requires ba.Valid() && FixedWidth(w)
    modifies ba`position, ba`cur
    ensures ba.Valid() && old(ba.State()).Sane()
    ensures (r, ba.State()) == ParseFixed(old(ba.State()), w, signed, ba.host)
    ensures r.Ok? <==> w / 8 <= old(ba.size - ba.position)
    ensures !r.Ok? ==> r == OutOfRange && ba.State() == old(ba.State())
    ensures r.Ok? && IsOrder(ba.endian) && IsOrder(ba.host) ==>
              && Fits(r.value, w, signed)
              && forall i :: 0 <= i < w / 8 ==> Digit(r.value, Rank(i, w / 8, ba.endian)) == ba.mem[old(ba.position) + i]
  {
    hide Pow2, FromImage, ByteSwap, Digit, Fits;
    ba.StateSane();
    var bytes := ba.Read(w / 8);
    if bytes.OutOfRange? {
      return OutOfRange;
    }
    var s := bytes.value;
    var u: nat;
    if w == 8 {
      u := s[0];
    } else {
      u := FromImage(s, ba.host);
      if ba.endian != ba.host {
        u := ByteSwap(u, w / 8);
      }
    }
    r := Ok(if signed then AsSigned(u, w) else u);
    if IsOrder(ba.endian) && IsOrder(ba.host) {
      forall i | 0 <= i < w / 8
        ensures Fits(r.value, w, signed) && Digit(r.value, Rank(i, w / 8, ba.endian)) == s[i]
      {
        FixedValueDigits(s, w, signed, ba.endian, ba.host, i);
      }
      assert Fits(r.value, w, signed) by {
        FixedValueDigits(s, w, signed, ba.endian, ba.host, 0);
      }
    }
  }

  /** The value of the reading loop after its next byte, in w bits. */
  lemma UintStep(s: seq<byte>, k: nat, w: nat)
    requires k < |s| && 7 * k < w && forall j :: 0 <= j < k ==> s[j] >= 0x80
    ensures s[k] < 0x80 ==>
              V.Decode(s, V.Room(w)) == V.Value(V.Low(s, k) + Shl(s[k], 7 * k), k + 1)
              && Or(V.Low(s, k), Trunc(Shl(s[k], 7 * k), w)) == Trunc(V.Low(s, k) + Shl(s[k], 7 * k), w)
    ensures s[k] >= 0x80 ==>
              And(s[k], 0x7F) == s[k] - 0x80
              && Or(V.Low(s, k), Trunc(Shl(s[k] - 0x80, 7 * k), w)) == Trunc(V.Low(s, k + 1), w)
  {
    hide Pow2, Shl, Trunc, Or, And;
    V.LowBound(s, k);
    Digits128(s[k]);
    if s[k] < 0x80 {
      OrDigit(V.Low(s, k), s[k], 7 * k, w);
      V.DecodeAfter(s, k, V.Room(w));
      assert s[k..][0] == s[k];
    } else {
      OrDigit(V.Low(s, k), s[k] - 0x80, 7 * k, w);
    }
  }

  /** The reading loop of readUint32 and readUint64. */
  method ReadUint(ba: ByteArray, w: nat) returns (r: Outcome<nat>)
    requires ba.Valid() && VarWidth(w)
    modifies ba`position, ba`cur
    ensures ba.Valid() && old(ba.State()).Sane()
    ensures (r, ba.State()) == ParseUint(old(ba.State()), w)
    ensures !r.Ok? ==> r == OutOfRange && ba.State() == old(ba.State()).(pos := old(ba.size))
  {
    hide V.Decode, Pow2, Shl, Trunc, Or, And, V.Low, FixedValue;
    ba.StateSane();
    ghost var b0 := ba.State();
    ghost var s := b0.Readable();
    ghost var k: nat := 0;
    var result: nat := 0;
    var i: nat := 0;
    LowZero(s, w);
    while i < w
      invariant i == 7 * k && k <= V.Room(w) && k <= |s|
      invariant forall j :: 0 <= j < k ==> s[j] >= 0x80
      invariant ba.Valid() && ba.State() == b0.(pos := b0.pos + k)
      invariant result == Trunc(V.Low(s, k), w)
      decreases w - i
    {
      var byte := ReadFixed(ba, 8, false);
      if byte.OutOfRange? {
        UintShort(s, k, w);
        return OutOfRange;
      }
      ByteAt(b0, k, ba.host);
      UintStep(s, k, w);
      LowSmall(s, k, w);
      var b: nat := byte.value;
      if b < 0x80 {
        result := Or(result, Trunc(Shl(b, i), w));
        return Ok(result);
      } else {
        result := Or(result, Trunc(Shl(And(b, 0x7F), i), w));
      }
      i := i + 7;
      k := k + 1;
    }
    UintFull(s, k, w);
    return Ok(result);
  }

  lemma LowZero(s: seq<byte>, w: nat)
    ensures Trunc(V.Low(s, 0), w) == 0
  {
    assert Pow2(w) >= 1;
    TruncSmall(0, w);
  }

  lemma LowSmall(s: seq<byte>, k: nat, w: nat)
    requires k <= |s| && 7 * k < w && forall j :: 0 <= j < k ==> s[j] >= 0x80
    ensures Trunc(V.Low(s, k), w) == V.Low(s, k)
  {
    V.LowBound(s, k);
    Pow2Monotone(7 * k, w);
    TruncSmall(V.Low(s, k), w);
  }

  /** Running out of bytes inside a varint. */
  lemma UintShort(s: seq<byte>, k: nat, w: nat)
    requires k == |s| && 7 * k < w && forall j :: 0 <= j < k ==> s[j] >= 0x80
    ensures V.Decode(s, V.Room(w)) == V.Truncated(k)
  {
    V.DecodeAfter(s, k, V.Room(w));
  }

  /** All the bytes a reader looks at carry the continuation bit: it stops without an end byte. */
  lemma UintFull(s: seq<byte>, k: nat, w: nat)
    requires k == V.Room(w) && k <= |s| && forall j :: 0 <= j < k ==> s[j] >= 0x80
    ensures V.Decode(s, V.Room(w)) == V.Value(V.Low(s, k), k)
  {
    V.DecodeAfter(s, k, k);
    ShlZero(7 * k);
  }

  lemma {:induction false} ShlZero(n: nat)
    ensures Shl(0, n) == 0
  {
    if n != 0 {
      ShlZero(n - 1);
    }
  }

  lemma ByteAt(b: Buffer, k: nat, host: int)
    requires b.Sane() && k < |b.Readable()|
    ensures ParseFixed(b.(pos := b.pos + k), 8, false, host) == (Ok(b.Readable()[k]), b.(pos := b.pos + k + 1))
  {
  }

  method ReadVar(ba: ByteArray, w: nat, signed: bool) returns (r: Outcome<int>)
    requires ba.Valid() && VarWidth(w)
    modifies ba`position, ba`cur
    ensures ba.Valid() && old(ba.State()).Sane()
    ensures (r, ba.State()) == ParseVar(old(ba.State()), w, signed)
  {
    hide ParseUint, V.DecodeZigzag;
    var u := ReadUint(ba, w);
    if !u.Ok? {
      return if u.OutOfRange? then OutOfRange else NullCursor;
    }
    r := Ok(if signed then V.DecodeZigzag(u.value, w) else u.value);
  }

  method ReadPrefix(ba: ByteArray, p: Prefix) returns (r: Outcome<int>)
    requires ba.Valid()
    modifies ba`position, ba`cur
    ensures ba.Valid() && old(ba.State()).Sane()
    ensures (r, ba.State()) == ParsePrefix(old(ba.State()), p, ba.host)
  {
    hide ParseVar, ParseFixed;
    if p == Vint {
      r := ReadVar(ba, PrefixWidth(p), false);
    } else {
      r := ReadFixed(ba, PrefixWidth(p), false);
    }
  }

  method ReadString(ba: ByteArray, p: Prefix) returns (r: Outcome<seq<byte>>)
    requires ba.Valid()
    modifies ba`position, ba`cur
    ensures ba.Valid() && old(ba.State()).Sane()
    ensures (r, ba.State()) == ParseString(old(ba.State()), p, ba.host)
  {
    hide ParsePrefix, ReadResult, ReadState;
    ba.StateSane();
    var len := ReadPrefix(ba, p);
    if len.OutOfRange? {
      return OutOfRange;
    }
    if len.NullCursor? {
      return NullCursor;
    }
    PrefixNonNegative(old(ba.State()), p, ba.host);
    r := ba.Read(len.value);
  }

  method ReadItem(ba: ByteArray, kind: Kind) returns (r: Outcome<Item>)
    requires ba.Valid() && TypedKind(kind)
    modifies ba`position, ba`cur
    ensures ba.Valid() && old(ba.State()).Sane()
    ensures (r, ba.State()) == Parse(old(ba.State()), kind, ba.host)
  {
    hide ParseFixed, ParseVar, ParseString;
    match kind
    case FixedKind(w, s) =>
      var v := ReadFixed(ba, w, s);
      r := Lift(v, v => Fixed(w, s, v));
    case VarKind(w, s) =>
      var v := ReadVar(ba, w, s);
      r := Lift(v, v => Var(w, s, v));
    case StrKind(p) =>
      var v := ReadString(ba, p);
      r := Lift(v, v => Str(p, v));
  }

  method ReadAll(ba: ByteArray, kinds: seq<Kind>) returns (r: Outcome<seq<Item>>)
    requires ba.Valid() && forall i :: 0 <= i < |kinds| ==> TypedKind(kinds[i])
    modifies ba`position, ba`cur
    ensures ba.Valid() && old(ba.State()).Sane()
    ensures (r, ba.State()) == ParseAll(old(ba.State()), kinds, ba.host)
    decreases |kinds|
  {
    hide Parse, TypedKind;
    ba.StateSane();
    if kinds == [] {
      return Ok([]);
    }
    var item := ReadItem(ba, kinds[0]);
    if item.OutOfRange? {
      return OutOfRange;
    }
    if item.NullCursor? {
      return NullCursor;
    }
    var rest := ReadAll(ba, kinds[1..]);
    r := Prepend(item.value, rest);
  }

  /**
   Writing any items, going back and reading their kinds gives the items, exactly unless some
   length does not fit its prefix, or the last item is an empty string and the items end
   where the memory, as it has to grow for them, ends.
   */
  method WriteThenRead(ba: ByteArray, items: seq<Item>) returns (r: Outcome<seq<Item>>)
    requires ba.Valid() && forall item <- items :: Typed(item)
    modifies ba.Repr
    ensures ba.Valid() && old(ba.State()).Sane()
    ensures var end := old(ba.position) + |BytesAll(items, old(ba.endian), ba.host)|;
            && (r == Ok(items) <==>
                  && (forall item <- items :: LengthFits(item))
                  && !(items != [] && items[|items| - 1].Str? && items[|items| - 1].bytes == []
                       && end == Grown(old(ba.capacity), ba.baseSize, end)))
            && (r == Ok(items) ==> ba.position == end)
  {
    hide Typed, LengthFits, BytesAll, ParseAll, Kinds;
    ba.StateSane();
    var start := ba.position;
    WriteAll(ba, items);
    ghost var b1 := ba.State();
    var back := ba.SetPosition(start);
    ghost var b2 := ba.State();
    ba.StateSane();
    WritesSlices(old(ba.State()), BytesAll(items, old(ba.endian), ba.host), b1);
    SequenceRoundTrip(b2, items, ba.host);
    r := ReadAll(ba, Kinds(items));
  }
}
