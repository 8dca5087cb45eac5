/**
 Base-128 varints and the ZigZag mapping of signed words.

 `Encode` and `Decode` are the reference definitions, written with base-128 digits; the loops
 of the byte array's codec, written with shifts and masks, are proved against them.
 */
module Varint {
  import opened Bits

  datatype Decoded =
    | Value(value: nat, used: nat)
    | Truncated(used: nat)

  /** Little-endian base-128 digits; every byte but the last carries the continuation bit. */
  function Encode(v: nat): (s: seq<byte>)
    ensures |s| >= 1
  {
    if v < 0x80 then [v] else [v % 0x80 + 0x80] + Encode(v / 0x80)
  }

  /** Reads at most `room` bytes of s; the value is not yet cut to a word. */
  function Decode(s: seq<byte>, room: nat): (r: Decoded)
    ensures r.used <= |s| && r.used <= room
    ensures r.Truncated? ==> r.used == |s|
    decreases room
  {
    if room == 0 then Value(0, 0)
    else if s == [] then Truncated(0)
    else if s[0] < 0x80 then Value(s[0], 1)
    else
      match Decode(s[1..], room - 1)
      case Value(v, n) => Value(s[0] - 0x80 + 0x80 * v, n + 1)
      case Truncated(n) => Truncated(n + 1)
  }

  /** Number of bytes a w-bit reader looks at: one for each shift 0, 7, 14, ... below w. */
  function Room(w: nat): nat {
    (w + 6) / 7
  }

  /** The code is as long as the number of base-128 digits, no longer and no shorter. */
  lemma {:induction false} EncodeLength(v: nat, n: nat)
    requires n >= 1
    ensures |Encode(v)| <= n <==> v < Pow2(7 * n)
    decreases n
  {
    if n > 1 {
      Pow2Times128(7 * (n - 1));
      if v >= 0x80 {
        EncodeLength(v / 0x80, n - 1);
      }
    } else {
      Pow2Times128(0);
      if v >= 0x80 {
        assert |Encode(v / 0x80)| >= 1;
      }
    }
  }

  /** A w-bit value needs no more bytes than a w-bit reader looks at. */
  lemma EncodeFits(v: nat, w: nat)
    requires w >= 1 && v < Pow2(w)
    ensures |Encode(v)| <= Room(w)
    ensures Room(32) == 5 && Room(64) == 10
  {
    Pow2Monotone(w, 7 * Room(w));
    EncodeLength(v, Room(w));
  }

  /** Digit number i of a number in base 128, from the low end. */
  function Digit(v: nat, i: nat): nat {
    v / Pow2(7 * i) % 0x80
  }

  lemma DigitNext(v: nat, i: nat)
    requires i >= 1
    ensures Digit(v, i) == Digit(v / 0x80, i - 1)
  {
    Pow2Times128(7 * (i - 1));
    DivTwice(v, 0x80, Pow2(7 * (i - 1)));
  }

  /** Byte i of a code is digit i, the lowest first, and all bytes but the last carry the high bit. */
  lemma {:induction false} EncodeDigits(v: nat, i: nat)
    requires i < |Encode(v)|
    ensures Encode(v)[i] == Digit(v, i) + if i < |Encode(v)| - 1 then 0x80 else 0
    decreases v
  {
    if i != 0 {
      EncodeDigits(v / 0x80, i - 1);
      DigitNext(v, i);
    }
  }

  /** Where a reader stops: behind the first byte without the high bit, or when its room is used up. */
  lemma {:induction false} DecodeStops(s: seq<byte>, room: nat)
    ensures var r := Decode(s, room);
            && (forall i :: 0 <= i < r.used - 1 ==> s[i] >= 0x80)
            && (r.Truncated? <==> |s| < room && forall i :: 0 <= i < |s| ==> s[i] >= 0x80)
            && (r.Value? ==> r.used == room || (r.used >= 1 && s[r.used - 1] < 0x80))
    decreases room
  {
    if room != 0 && s != [] && s[0] >= 0x80 {
      DecodeStops(s[1..], room - 1);
      assert forall i :: 1 <= i < |s| ==> s[i] == s[1..][i - 1];
    }
  }

  /** The digits of the value read are those of the bytes used. */
  lemma {:induction false} DecodeDigits(s: seq<byte>, room: nat, i: nat)
    requires Decode(s, room).Value? && i < Decode(s, room).used
    ensures Digit(Decode(s, room).value, i) == s[i] % 0x80
    decreases room
  {
    if s[0] >= 0x80 {
      var v := Decode(s[1..], room - 1).value;
      if i != 0 {
        DecodeDigits(s[1..], room - 1, i - 1);
        DigitNext(Decode(s, room).value, i);
        assert (s[0] - 0x80 + 0x80 * v) / 0x80 == v;
      }
    }
  }

  /** Reading a code, whatever follows it, gives the value and stops right behind the code. */
  lemma {:induction false} RoundTrip(v: nat, rest: seq<byte>, room: nat)
    requires |Encode(v)| <= room
    ensures Decode(Encode(v) + rest, room) == Value(v, |Encode(v)|)
    decreases v
  {
    var s := Encode(v) + rest;
    if v >= 0x80 {
      assert s[1..] == Encode(v / 0x80) + rest;
      RoundTrip(v / 0x80, rest, room - 1);
    }
  }

  /** No code is a prefix of another, so codes written back to back split in one way only. */
  lemma PrefixFree(v: nat, v': nat, rest: seq<byte>, rest': seq<byte>)
    requires Encode(v) + rest == Encode(v') + rest'
    ensures v == v' && rest == rest'
  {
    var room := |Encode(v)| + |Encode(v')|;
    RoundTrip(v, rest, room);
    RoundTrip(v', rest', room);
    assert rest == (Encode(v) + rest)[|Encode(v)|..];
    assert rest' == (Encode(v') + rest')[|Encode(v')|..];
  }

  lemma {:induction false} DecodeBound(s: seq<byte>, room: nat)
    requires Decode(s, room).Value?
    ensures Decode(s, room).value < Pow2(7 * Decode(s, room).used)
    ensures room >= 1 ==> Decode(s, room).used >= 1
    decreases room
  {
    Pow2Times128(0);
    if room != 0 && s[0] >= 0x80 {
      DecodeBound(s[1..], room - 1);
      var n := Decode(s[1..], room - 1).used;
      Pow2Times128(7 * n);
    }
  }

  /** No byte string read as v by a w-bit reader is shorter than the code of v. */
  lemma Minimal(s: seq<byte>, w: nat)
    requires w >= 1 && Decode(s, Room(w)).Value?
    ensures |Encode(Trunc(Decode(s, Room(w)).value, w))| <= Decode(s, Room(w)).used
  {
    DecodeBound(s, Room(w));
    TruncBound(Decode(s, Room(w)).value, w);
    EncodeLength(Trunc(Decode(s, Room(w)).value, w), Decode(s, Room(w)).used);
  }

  /** The value of the first k bytes, all of which carry the continuation bit. */
  function Low(s: seq<byte>, k: nat): nat
    requires k <= |s|
    requires forall j :: 0 <= j < k ==> s[j] >= 0x80
  {
    if k == 0 then 0 else Low(s, k - 1) + Shl(s[k - 1] - 0x80, 7 * (k - 1))
  }

  lemma {:induction false} ShlBound(d: nat, n: nat)
    requires d < 0x80
    ensures Shl(d, n) + Pow2(n) <= Pow2(n + 7)
    decreases n
  {
    if n == 0 {
      Pow2Times128(0);
    } else {
      ShlBound(d, n - 1);
    }
  }

  lemma {:induction false} LowBound(s: seq<byte>, k: nat)
    requires k <= |s|
    requires forall j :: 0 <= j < k ==> s[j] >= 0x80
    ensures Low(s, k) < Pow2(7 * k)
  {
    if k != 0 {
      LowBound(s, k - 1);
      ShlBound(s[k - 1] - 0x80, 7 * (k - 1));
    }
  }

  /** Peeling the first byte of the continuation bytes. */
  lemma {:induction false} LowFirst(s: seq<byte>, k: nat)
    requires 1 <= k <= |s|
    requires forall j :: 0 <= j < k ==> s[j] >= 0x80
    ensures Low(s, k) == s[0] - 0x80 + 0x80 * Low(s[1..], k - 1)
  {
    var t := s[1..];
    if k == 1 {
      assert Shl(s[0] - 0x80, 7 * 0) == s[0] - 0x80;
      assert Low(s, 1) == Low(s, 0) + Shl(s[0] - 0x80, 7 * 0);
    } else {
      LowFirst(s, k - 1);
      Shl128(s[k - 1] - 0x80, 7 * (k - 2));
      assert Low(t, k - 1) == Low(t, k - 2) + Shl(t[k - 2] - 0x80, 7 * (k - 2));
    }
  }

  /** The decoder after k continuation bytes, which is what its loop has at that point. */
  lemma {:induction false} DecodeAfter(s: seq<byte>, k: nat, room: nat)
    requires k <= room && k <= |s|
    requires forall j :: 0 <= j < k ==> s[j] >= 0x80
    ensures Decode(s, room) ==
            match Decode(s[k..], room - k)
            case Value(v, n) => Value(Low(s, k) + Shl(v, 7 * k), n + k)
            case Truncated(n) => Truncated(n + k)
    decreases k
  {
    if k == 0 {
      assert s[0..] == s;
    } else {
      hide Pow2;
      var t := s[1..];
      DecodeAfter(t, k - 1, room - 1);
      assert t[k - 1..] == s[k..];
      LowFirst(s, k);
      if Decode(s[k..], room - k).Value? {
        Shl128(Decode(s[k..], room - k).value, 7 * (k - 1));
      }
    }
  }

  // ---------- ZigZag ----------

  /** The unsigned code of a signed w-bit word, in w-bit arithmetic throughout. */
  function EncodeZigzag(v: int, w: nat): nat {
    if v < 0 then Wrap(Wrap(Wrap(0 - v, w) * 2, w) - 1, w) else Wrap(v * 2, w)
  }

  /** The logical half, complemented when the low bit is set. */
  function DecodeZigzag(u: nat, w: nat): int {
    AsSigned(Xor(Shr(u, 1), Wrap(0 - And(u, 1), w)), w)
  }

  /** Non-negative values go to the even codes and negative ones to the odd codes, by size. */
  lemma ZigzagMeaning(v: int, w: nat)
    requires w >= 2 && FitsSigned(v, w)
    ensures EncodeZigzag(v, w) == if v < 0 then -2 * v - 1 else 2 * v
    ensures FitsUnsigned(EncodeZigzag(v, w), w)
  {
    if v < 0 {
      WrapNear(0 - v, w);
      WrapNear(2 * (0 - v), w);
      WrapNear(Wrap(2 * (0 - v), w) - 1, w);
    } else {
      WrapNear(2 * v, w);
    }
  }

  lemma UnzigzagMeaning(u: nat, w: nat)
    requires w >= 2 && FitsUnsigned(u, w)
    ensures DecodeZigzag(u, w) == if u % 2 == 1 then -(u / 2) - 1 else u / 2
    ensures FitsSigned(DecodeZigzag(u, w), w)
  {
    LowBit(u);
    WrapNear(0 - u % 2, w);
    if u % 2 == 1 {
      XorOnes(u / 2, w);
    } else {
      XorZero(u / 2);
    }
  }

  lemma LowBit(u: nat)
    ensures And(u, 1) == u % 2 && Shr(u, 1) == u / 2
  {
    assert And(u / 2, 0) == 0;
  }

  /** The two mappings are inverse to each other: ZigZag is a bijection at every width. */
  lemma ZigzagBijection(v: int, u: nat, w: nat)
    requires w >= 2 && FitsSigned(v, w) && FitsUnsigned(u, w)
    ensures DecodeZigzag(EncodeZigzag(v, w), w) == v
    ensures EncodeZigzag(DecodeZigzag(u, w), w) == u
  {
    ZigzagMeaning(v, w);
    UnzigzagMeaning(EncodeZigzag(v, w), w);
    UnzigzagMeaning(u, w);
    ZigzagMeaning(DecodeZigzag(u, w), w);
  }
}
