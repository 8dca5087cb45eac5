/**
 The typed values a byte array can hold, their bytes, and what the typed reads return.

 `Fixed`, `Var` and `Str` stand for the families writeFint and writeFuint, writeInt and
 writeUint, and writeString. Reading is given as a function on the flat buffer.
 */
module Items {
  import opened Bits
  import opened FlatBuffer
  import opened FixedInt
  import V = Varint

  datatype Prefix = F16 | F32 | F64 | Vint

  datatype Item =
    | Fixed(width: nat, signed: bool, value: int)
    | Var(width: nat, signed: bool, value: int)
    | Str(prefix: Prefix, bytes: seq<byte>)

  datatype Kind =
    | FixedKind(width: nat, signed: bool)
    | VarKind(width: nat, signed: bool)
    | StrKind(prefix: Prefix)

  function KindOf(item: Item): Kind {
    match item
    case Fixed(w, s, _) => FixedKind(w, s)
    case Var(w, s, _) => VarKind(w, s)
    case Str(p, _) => StrKind(p)
  }

  predicate FixedWidth(w: nat) { w == 8 || w == 16 || w == 32 || w == 64 }

  predicate VarWidth(w: nat) { w == 32 || w == 64 }

  predicate Fits(v: int, w: nat, signed: bool) {
    if signed then FitsSigned(v, w) else FitsUnsigned(v, w)
  }

  /** The value has the C++ type of the write it is passed to. */
  predicate Typed(item: Item) {
    match item
    case Fixed(w, s, v) => FixedWidth(w) && Fits(v, w, s)
    case Var(w, s, v) => VarWidth(w) && Fits(v, w, s)
    case Str(_, _) => true
  }

  predicate TypedKind(k: Kind) {
    match k
    case FixedKind(w, _) => FixedWidth(w)
    case VarKind(w, _) => VarWidth(w)
    case StrKind(_) => true
  }

  function PrefixWidth(p: Prefix): nat {
    match p case F16 => 16 case F32 => 32 case F64 => 64 case Vint => 64
  }

  /** The length of a string fits its prefix. */
  predicate LengthFits(item: Item) {
    item.Str? ==> |item.bytes| < Pow2(PrefixWidth(item.prefix))
  }

  function FixedBytes(v: int, w: nat, endian: int, host: int): (s: seq<byte>)
    requires FixedWidth(w)
    ensures |s| == w / 8
  {
    if w == 8 then [v % 0x100] else WireBytes(Wrap(v, w), w / 8, endian, host)
  }

  function PrefixBytes(n: nat, p: Prefix, endian: int, host: int): (s: seq<byte>)
    ensures |s| >= 1
  {
    if p == Vint then V.Encode(Trunc(n, PrefixWidth(p))) else FixedBytes(n, PrefixWidth(p), endian, host)
  }

  function Bytes(item: Item, endian: int, host: int): (s: seq<byte>)
    requires Typed(item)
    ensures |s| >= 1
  {
    match item
    case Fixed(w, _, v) => FixedBytes(v, w, endian, host)
    case Var(w, s, v) => V.Encode(Code(v, w, s))
    case Str(p, str) => PrefixBytes(|str|, p, endian, host) + str
  }

  // ---------- The bytes, one by one ----------

  /** Which byte of a number of n bytes stands at place i. */
  function Rank(i: nat, n: nat, endian: int): nat
    requires i < n
  {
    if endian == LITTLE_ENDIAN then i else n - 1 - i
  }

  /** A fixed-width integer, negative or not, is its two's complement bytes in the order asked for. */
  lemma FixedDigits(v: int, w: nat, endian: int, host: int, i: nat)
    requires FixedWidth(w) && IsOrder(endian) && IsOrder(host) && i < w / 8
    ensures FixedBytes(v, w, endian, host)[i] == Digit(v, Rank(i, w / 8, endian))
  {
    hide Pow2, WireBytes, Digit;
    if w == 8 {
      LowDigit(v);
    } else {
      WholeBytes(w);
      WireOrder(Wrap(v, w), w / 8, endian, host);
      WrapDigits(v, w, Rank(i, w / 8, endian));
    }
  }

  lemma LowDigit(v: int)
    ensures Digit(v, 0) == v % 0x100
  {
    assert Pow2(8 * 0) == 1;
  }

  lemma WholeBytes(w: nat)
    requires FixedWidth(w)
    ensures 8 * (w / 8) == w
  {
  }

  /** The bytes of a string: 2, 4 or 8 bytes of its length, or a varint of it, and then the string. */
  lemma StringBytes(p: Prefix, str: seq<byte>, endian: int, host: int)
    ensures var s := Bytes(Str(p, str), endian, host);
            && (p == F16 ==> |s| == 2 + |str|) && (p == F32 ==> |s| == 4 + |str|) && (p == F64 ==> |s| == 8 + |str|)
            && s[|s| - |str|..] == str
            && (p == Vint ==> s[..|s| - |str|] == V.Encode(|str| % Pow2(64)))
            && (p != Vint && IsOrder(endian) && IsOrder(host) ==>
                  var n := |s| - |str|;
                  forall i :: 0 <= i < n ==> s[i] == Digit(|str|, Rank(i, n, endian)))
  {
    hide V.Encode, FixedBytes, Digit, Pow2, Trunc;
    TruncIsMod(|str|, 64);
    var s := Bytes(Str(p, str), endian, host);
    var n := |PrefixBytes(|str|, p, endian, host)|;
    assert s[n..] == str && s[..n] == PrefixBytes(|str|, p, endian, host);
    if p != Vint && IsOrder(endian) && IsOrder(host) {
      forall i | 0 <= i < n
        ensures s[i] == Digit(|str|, Rank(i, n, endian))
      {
        FixedDigits(|str|, PrefixWidth(p), endian, host, i);
      }
    }
  }

  // ---------- Reading ----------

  /** What a read returns and the buffer it leaves. */
  type Reply<T> = (Outcome<T>, Buffer)

  function FixedValue(s: seq<byte>, w: nat, signed: bool, endian: int, host: int): int
    requires FixedWidth(w) && |s| == w / 8
  {
    var u := if w == 8 then s[0] else WireValue(s, endian, host);
    if signed then AsSigned(u, w) else u
  }

  /** The integer read has the width asked for and the bytes found, in the array's order. */
  lemma FixedValueDigits(s: seq<byte>, w: nat, signed: bool, endian: int, host: int, i: nat)
    requires FixedWidth(w) && |s| == w / 8 && IsOrder(endian) && IsOrder(host) && i < w / 8
    ensures Fits(FixedValue(s, w, signed, endian, host), w, signed)
    ensures Digit(FixedValue(s, w, signed, endian, host), Rank(i, w / 8, endian)) == s[i]
  {
    hide Pow2, WireValue, Digit;
    var v := FixedValue(s, w, signed, endian, host);
    WordDigits(s, w, endian, host, i);
    WholeBytes(w);
    WrapNear(v, w);
    WrapDigits(v, w, Rank(i, w / 8, endian));
  }

  lemma WordDigits(s: seq<byte>, w: nat, endian: int, host: int, i: nat)
    requires FixedWidth(w) && |s| == w / 8 && IsOrder(endian) && IsOrder(host) && i < w / 8
    ensures var u := if w == 8 then s[0] else WireValue(s, endian, host);
            u < Pow2(w) && Digit(u, Rank(i, w / 8, endian)) == s[i]
  {
    hide Pow2, Digit, WireValue;
    if w == 8 {
      ByteDigit(s[0]);
    } else {
      WholeBytes(w);
      ValueOrder(s, endian, host);
    }
  }

  lemma ByteDigit(v: byte)
    ensures v < Pow2(8) && Digit(v, 0) == v
  {
    Pow2Times256(0);
    LowDigit(v);
  }

  ghost function ParseFixed(b: Buffer, w: nat, signed: bool, host: int): (r: Reply<int>)
    requires b.Sane() && FixedWidth(w)
    ensures r.1.Sane() && r.1 == b.(pos := r.1.pos)
  {
    if b.size - b.pos < w / 8 then (OutOfRange, b)
    else
      (Ok(FixedValue(b.mem[b.pos..b.pos + w / 8], w, signed, b.endian, host)), b.(pos := b.pos + w / 8))
  }

  /** A varint read that runs out of bytes has consumed them all. */
  ghost function ParseUint(b: Buffer, w: nat): (r: Reply<nat>)
    requires b.Sane()
    ensures r.1.Sane() && r.1 == b.(pos := r.1.pos)
  {
    match V.Decode(b.Readable(), V.Room(w))
    case Value(v, n) => (Ok(Trunc(v, w)), b.(pos := b.pos + n))
    case Truncated(n) => (OutOfRange, b.(pos := b.pos + n))
  }

  ghost function ParseVar(b: Buffer, w: nat, signed: bool): (r: Reply<int>)
    requires b.Sane()
    ensures r.1.Sane() && r.1 == b.(pos := r.1.pos)
  {
    var (o, b') := ParseUint(b, w);
    match o
    case Ok(u) => (Ok(if signed then V.DecodeZigzag(u, w) else u), b')
    case OutOfRange => (OutOfRange, b')
    case NullCursor => (NullCursor, b')
  }

  ghost function ParsePrefix(b: Buffer, p: Prefix, host: int): (r: Reply<int>)
    requires b.Sane()
    ensures r.1.Sane() && r.1 == b.(pos := r.1.pos)
  {
    if p == Vint then ParseVar(b, PrefixWidth(p), false) else ParseFixed(b, PrefixWidth(p), false, host)
  }

  ghost function ParseString(b: Buffer, p: Prefix, host: int): (r: Reply<seq<byte>>)
    requires b.Sane()
    ensures r.1.Sane() && r.1 == b.(pos := r.1.pos)
  {
    var (o, b') := ParsePrefix(b, p, host);
    match o
    case Ok(n) => if n < 0 then (OutOfRange, b') else (ReadResult(b', n), ReadState(b', n))
    case OutOfRange => (OutOfRange, b')
    case NullCursor => (NullCursor, b')
  }

  ghost function Parse(b: Buffer, k: Kind, host: int): (r: Reply<Item>)
    requires b.Sane() && TypedKind(k)
    ensures r.1.Sane() && r.1 == b.(pos := r.1.pos)
  {
    match k
    case FixedKind(w, s) => var (o, b') := ParseFixed(b, w, s, host); (Lift(o, v => Fixed(w, s, v)), b')
    case VarKind(w, s) => var (o, b') := ParseVar(b, w, s); (Lift(o, v => Var(w, s, v)), b')
    case StrKind(p) => var (o, b') := ParseString(b, p, host); (Lift(o, v => Str(p, v)), b')
  }

  function Lift<T, U>(r: Outcome<T>, f: T -> U): Outcome<U> {
    match r
    case Ok(v) => Ok(f(v))
    case OutOfRange => OutOfRange
    case NullCursor => NullCursor
  }

  lemma PrefixNonNegative(b: Buffer, p: Prefix, host: int)
    requires b.Sane()
    ensures ParsePrefix(b, p, host).0.Ok? ==> ParsePrefix(b, p, host).0.value >= 0
  {
  }

  // ---------- Round trips ----------

  /** The next bytes to read are exactly s. */
  ghost predicate Next(b: Buffer, s: seq<byte>)
    requires b.Sane()
  {
    b.pos + |s| <= b.size && b.mem[b.pos..b.pos + |s|] == s
  }

  lemma NextReadable(b: Buffer, s: seq<byte>)
    requires b.Sane() && Next(b, s)
    ensures b.Readable() == s + b.Readable()[|s|..]
  {
  }

  lemma NextSplit(b: Buffer, s: seq<byte>, t: seq<byte>)
    requires b.Sane() && Next(b, s + t)
    ensures Next(b, s) && Next(b.(pos := b.pos + |s|), t)
  {
    assert b.mem[b.pos..b.pos + |s|] == b.mem[b.pos..b.pos + |s + t|][..|s|] == s;
    assert b.mem[b.pos + |s|..b.pos + |s + t|] == b.mem[b.pos..b.pos + |s + t|][|s|..] == t;
  }

  lemma FixedRoundTrip(b: Buffer, w: nat, signed: bool, v: int, host: int)
    requires b.Sane() && FixedWidth(w) && Fits(v, w, signed)
    requires Next(b, FixedBytes(v, w, b.endian, host))
    ensures ParseFixed(b, w, signed, host) == (Ok(v), b.(pos := b.pos + w / 8))
  {
    FixedValueOf(v, w, signed, b.endian, host);
  }

  lemma FixedValueOf(v: int, w: nat, signed: bool, endian: int, host: int)
    requires FixedWidth(w) && Fits(v, w, signed)
    ensures FixedValue(FixedBytes(v, w, endian, host), w, signed, endian, host) == v
  {
    if w == 8 {
      ByteValueOf(v, w, signed, endian, host);
    } else {
      hide WireBytes, WireValue, Pow2, Wrap;
      WholeBytes(w);
      WrapNear(v, w);
      if signed {
        WrapSigned(v, w);
      }
      WireRoundTrip(Wrap(v, w), w / 8, endian, host);
    }
  }

  lemma ByteValueOf(v: int, w: nat, signed: bool, endian: int, host: int)
    requires w == 8 && Fits(v, w, signed)
    ensures FixedValue(FixedBytes(v, w, endian, host), w, signed, endian, host) == v
  {
    assert Pow2(0 + 8) == 0x100 * Pow2(0) by { Pow2Times256(0); }
    assert Pow2(w) == 0x100;
  }

  lemma UintRoundTrip(b: Buffer, w: nat, u: nat)
    requires b.Sane() && w >= 1 && u < Pow2(w) && Next(b, V.Encode(u))
    ensures ParseUint(b, w) == (Ok(u), b.(pos := b.pos + |V.Encode(u)|))
  {
    V.EncodeFits(u, w);
    TruncSmall(u, w);
    NextReadable(b, V.Encode(u));
    V.RoundTrip(u, b.Readable()[|V.Encode(u)|..], V.Room(w));
  }

  /** The unsigned word a varint item is written as. */
  function Code(v: int, w: nat, signed: bool): nat
    requires Fits(v, w, signed)
  {
    if signed then V.EncodeZigzag(v, w) else v
  }

  lemma VarRoundTrip(b: Buffer, w: nat, signed: bool, v: int)
    requires b.Sane() && w >= 2 && Fits(v, w, signed) && Next(b, V.Encode(Code(v, w, signed)))
    ensures ParseVar(b, w, signed) == (Ok(v), b.(pos := b.pos + |V.Encode(Code(v, w, signed))|))
  {
    if signed {
      V.ZigzagMeaning(v, w);
      V.ZigzagBijection(v, 0, w);
    }
    UintRoundTrip(b, w, Code(v, w, signed));
  }

  /** The length a prefix can carry. */
  function CutLength(n: nat, p: Prefix): nat {
    if p == Vint then Trunc(n, PrefixWidth(p)) else Wrap(n, PrefixWidth(p))
  }

  /** A length cut to a word has the bytes of the length. */
  lemma CutFits(n: nat, w: nat)
    requires FixedWidth(w)
    ensures 0 <= Wrap(n, w) < Pow2(w)
    ensures forall endian, host :: FixedBytes(Wrap(n, w), w, endian, host) == FixedBytes(n, w, endian, host)
  {
    WrapNear(Wrap(n, w), w);
    if w == 8 {
      Pow2Times256(0);
    }
  }

  /** Whatever the string's length, its prefix reads back as the length cut to the prefix. */
  lemma PrefixRoundTrip(b: Buffer, p: Prefix, n: nat, host: int)
    requires b.Sane() && Next(b, PrefixBytes(n, p, b.endian, host))
    ensures ParsePrefix(b, p, host)
         == (Ok(CutLength(n, p)), b.(pos := b.pos + |PrefixBytes(n, p, b.endian, host)|))
  {
    hide Pow2, Trunc, Wrap, V.Encode, ParseVar, ParseFixed, FixedBytes;
    var m, w := CutLength(n, p), PrefixWidth(p);
    if p == Vint {
      TruncBound(n, w);
      VarRoundTrip(b, w, false, m);
    } else {
      CutFits(n, w);
      FixedRoundTrip(b, w, false, m, host);
    }
  }

  lemma CutLengthIff(n: nat, p: Prefix)
    ensures CutLength(n, p) == n <==> n < Pow2(PrefixWidth(p))
  {
    var w := PrefixWidth(p);
    TruncBound(n, w);
    if n < Pow2(w) {
      TruncSmall(n, w);
      WrapNear(n, w);
    }
  }

  /** An empty string whose bytes end exactly at the end of the memory. */
  ghost predicate EmptyAtEnd(b: Buffer, item: Item, host: int)
    requires Typed(item)
  {
    item.Str? && item.bytes == [] && b.pos + |Bytes(item, b.endian, host)| == |b.mem|
  }

  lemma StringRoundTrip(b: Buffer, p: Prefix, str: seq<byte>, host: int)
    requires b.Sane() && Next(b, Bytes(Str(p, str), b.endian, host))
    ensures |str| < Pow2(PrefixWidth(p)) && !EmptyAtEnd(b, Str(p, str), host) ==>
              ParseString(b, p, host) == (Ok(str), b.(pos := b.pos + |Bytes(Str(p, str), b.endian, host)|))
    ensures |str| >= Pow2(PrefixWidth(p)) ==> ParseString(b, p, host).0 != Ok(str)
    ensures |str| < Pow2(PrefixWidth(p)) && EmptyAtEnd(b, Str(p, str), host) ==>
              ParseString(b, p, host).0 == NullCursor
  {
    hide ParsePrefix, PrefixBytes, CutLength, Pow2;
    NextSplit(b, PrefixBytes(|str|, p, b.endian, host), str);
    PrefixRoundTrip(b, p, |str|, host);
    CutLengthIff(|str|, p);
  }

  /** A string whose bytes are not all there is refused, and the cursor stays behind its length. */
  lemma StringShort(b: Buffer, p: Prefix, n: nat, host: int)
    requires b.Sane() && n < Pow2(PrefixWidth(p)) && Next(b, PrefixBytes(n, p, b.endian, host))
    requires b.size - b.pos < |PrefixBytes(n, p, b.endian, host)| + n
    ensures ParseString(b, p, host) == (OutOfRange, b.(pos := b.pos + |PrefixBytes(n, p, b.endian, host)|))
  {
    hide ParsePrefix, PrefixBytes, CutLength, Pow2;
    PrefixRoundTrip(b, p, n, host);
    CutLengthIff(n, p);
  }

  /** A varint that does not end is refused, with all its bytes consumed. */
  lemma VarShort(b: Buffer, w: nat, signed: bool)
    requires b.Sane() && |b.Readable()| < V.Room(w) && forall i :: 0 <= i < |b.Readable()| ==> b.Readable()[i] >= 0x80
    ensures ParseVar(b, w, signed) == (OutOfRange, b.(pos := b.size))
  {
    V.DecodeStops(b.Readable(), V.Room(w));
  }

  /** The value of a varint read, before the sign is undone: the digits of its bytes, cut to the word. */
  lemma VarValue(b: Buffer, w: nat)
    requires b.Sane() && ParseUint(b, w).0.Ok?
    ensures var s, n := b.Readable(), ParseUint(b, w).1.pos - b.pos;
            && 0 <= n <= |s| && (n == V.Room(w) || (n >= 1 && s[n - 1] < 0x80)) && (forall i :: 0 <= i < n - 1 ==> s[i] >= 0x80)
            && V.Decode(s, V.Room(w)).Value? && ParseUint(b, w).0.value == V.Decode(s, V.Room(w)).value % Pow2(w)
            && V.Decode(s, V.Room(w)).value < Pow2(7 * n)
            && forall i: nat :: i < n ==> V.Digit(V.Decode(s, V.Room(w)).value, i) == s[i] % 0x80
  {
    hide Pow2, Trunc, V.Decode, V.Digit;
    var s, room := b.Readable(), V.Room(w);
    V.DecodeStops(s, room);
    V.DecodeBound(s, room);
    TruncIsMod(V.Decode(s, room).value, w);
    forall i: nat | i < V.Decode(s, room).used
      ensures V.Digit(V.Decode(s, room).value, i) == s[i] % 0x80
    {
      V.DecodeDigits(s, room, i);
    }
  }

  /**
   Reading an item where it was written returns the item, exactly unless its length did not
   fit its prefix or it is an empty string that ends at the end of the memory.
   */
  lemma ItemRoundTrip(b: Buffer, item: Item, host: int)
    requires b.Sane() && Typed(item) && Next(b, Bytes(item, b.endian, host))
    ensures Parse(b, KindOf(item), host).0 == Ok(item) <==> LengthFits(item) && !EmptyAtEnd(b, item, host)
    ensures LengthFits(item) && !EmptyAtEnd(b, item, host) ==>
              Parse(b, KindOf(item), host).1 == b.(pos := b.pos + |Bytes(item, b.endian, host)|)
    ensures LengthFits(item) && EmptyAtEnd(b, item, host) ==> Parse(b, KindOf(item), host).0 == NullCursor
  {
    match item
    case Fixed(w, s, v) => FixedRoundTrip(b, w, s, v, host);
    case Var(w, s, v) => VarRoundTrip(b, w, s, v);
    case Str(p, str) => StringRoundTrip(b, p, str, host);
  }

  /** The smallest case: an empty string in a buffer of one byte cannot be read back. */
  lemma EmptyStringLost(endian: int, host: int)
    ensures Next(Buffer(1, [0], 0, 1, endian), Bytes(Str(Vint, []), endian, host))
    ensures Parse(Buffer(1, [0], 0, 1, endian), StrKind(Vint), host).0 == NullCursor
  {
    hide Pow2, Parse;
    var b := Buffer(1, [0], 0, 1, endian);
    TruncSmall(0, 64);
    assert Bytes(Str(Vint, []), endian, host) == [0];
    ItemRoundTrip(b, Str(Vint, []), host);
  }

  // ---------- Sequences of items ----------

  function BytesAll(items: seq<Item>, endian: int, host: int): (s: seq<byte>)
    requires forall item <- items :: Typed(item)
    ensures items != [] ==> |s| >= 1
  {
    if items == [] then [] else Bytes(items[0], endian, host) + BytesAll(items[1..], endian, host)
  }

  function Kinds(items: seq<Item>): (ks: seq<Kind>)
    requires forall item <- items :: Typed(item)
    ensures forall i :: 0 <= i < |ks| ==> TypedKind(ks[i])
  {
    if items == [] then []
    else
      assert Typed(items[0]) && TypedKind(KindOf(items[0]));
      [KindOf(items[0])] + Kinds(items[1..])
  }

  function Prepend(x: Item, os: Outcome<seq<Item>>): Outcome<seq<Item>> {
    match os
    case Ok(xs) => Ok([x] + xs)
    case OutOfRange => OutOfRange
    case NullCursor => NullCursor
  }

  ghost function ParseAll(b: Buffer, ks: seq<Kind>, host: int): (r: Reply<seq<Item>>)
    requires b.Sane() && forall i :: 0 <= i < |ks| ==> TypedKind(ks[i])
    ensures r.1.Sane() && r.1 == b.(pos := r.1.pos)
    decreases |ks|
  {
    if ks == [] then (Ok([]), b)
    else
      var (o, b') := Parse(b, ks[0], host);
      match o
      case Ok(x) => var (os, b'') := ParseAll(b', ks[1..], host); (Prepend(x, os), b'')
      case OutOfRange => (OutOfRange, b')
      case NullCursor => (NullCursor, b')
  }

  /** The last item is an empty string and the items end exactly at the end of the memory. */
  ghost predicate EndsEmptyAtEnd(b: Buffer, items: seq<Item>, host: int)
    requires forall item <- items :: Typed(item)
  {
    && items != []
    && items[|items| - 1].Str? && items[|items| - 1].bytes == []
    && b.pos + |BytesAll(items, b.endian, host)| == |b.mem|
  }

  lemma {:induction false} SequenceReads(b: Buffer, items: seq<Item>, host: int)
    requires b.Sane() && (forall item <- items :: Typed(item)) && Next(b, BytesAll(items, b.endian, host))
    requires (forall item <- items :: LengthFits(item)) && !EndsEmptyAtEnd(b, items, host)
    ensures ParseAll(b, Kinds(items), host) == (Ok(items), b.(pos := b.pos + |BytesAll(items, b.endian, host)|))
    decreases |items|
  {
    hide Parse, Bytes, LengthFits, Typed;
    if items != [] {
      var x, rest := items[0], items[1..];
      var bx, br := Bytes(x, b.endian, host), BytesAll(rest, b.endian, host);
      NextSplit(b, bx, br);
      assert EmptyAtEnd(b, x, host) ==> rest == [];
      ItemRoundTrip(b, x, host);
      SequenceReads(b.(pos := b.pos + |bx|), rest, host);
      assert Kinds(items)[1..] == Kinds(rest) && [x] + rest == items;
    }
  }

  /** Otherwise the items do not come back; if the lengths fit, the read hits the null chunk. */
  lemma {:induction false} SequenceFails(b: Buffer, items: seq<Item>, host: int)
    requires b.Sane() && (forall item <- items :: Typed(item)) && Next(b, BytesAll(items, b.endian, host))
    requires (exists item <- items :: !LengthFits(item)) || EndsEmptyAtEnd(b, items, host)
    ensures ParseAll(b, Kinds(items), host).0 != Ok(items)
    ensures (forall item <- items :: LengthFits(item)) ==> ParseAll(b, Kinds(items), host).0 == NullCursor
    decreases |items|
  {
    hide Parse, Bytes, LengthFits, Typed;
    var x, rest := items[0], items[1..];
    var bx, br := Bytes(x, b.endian, host), BytesAll(rest, b.endian, host);
    NextSplit(b, bx, br);
    ItemRoundTrip(b, x, host);
    if LengthFits(x) && !EmptyAtEnd(b, x, host) {
      assert items == [x] + rest;
      SequenceFails(b.(pos := b.pos + |bx|), rest, host);
      assert Kinds(items)[1..] == Kinds(rest);
    }
  }

  /**
   Reading a sequence of items where it was written returns the sequence and leaves the cursor
   behind it, exactly unless some length did not fit or the last item is an empty string at
   the end of the memory. Only the last item can be there: every item has at least one byte.
   */
  lemma SequenceRoundTrip(b: Buffer, items: seq<Item>, host: int)
    requires b.Sane() && (forall item <- items :: Typed(item)) && Next(b, BytesAll(items, b.endian, host))
    ensures ParseAll(b, Kinds(items), host).0 == Ok(items)
       <==> (forall item <- items :: LengthFits(item)) && !EndsEmptyAtEnd(b, items, host)
    ensures ParseAll(b, Kinds(items), host).0 == Ok(items) ==>
              ParseAll(b, Kinds(items), host).1 == b.(pos := b.pos + |BytesAll(items, b.endian, host)|)
  {
    if (forall item <- items :: LengthFits(item)) && !EndsEmptyAtEnd(b, items, host) {
      SequenceReads(b, items, host);
    } else {
      SequenceFails(b, items, host);
    }
  }
}
