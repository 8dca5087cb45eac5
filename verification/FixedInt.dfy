/**
 Fixed-width integers: their bytes in memory, byte swapping, and the bytes that go on the wire.
 Byte orders are the codes of the source: 1 for little-endian, 2 for big-endian.
 */
module FixedInt {
  import opened Bits

  const LITTLE_ENDIAN: int := 1
  const BIG_ENDIAN: int := 2

  predicate IsOrder(code: int) { code == LITTLE_ENDIAN || code == BIG_ENDIAN }

  function ToLittle(v: nat, n: nat): (s: seq<byte>)
    ensures |s| == n
  {
    if n == 0 then [] else [v % 0x100] + ToLittle(v / 0x100, n - 1)
  }

  function FromLittle(s: seq<byte>): nat {
    if s == [] then 0 else s[0] + 0x100 * FromLittle(s[1..])
  }

  function Reverse(s: seq<byte>): (r: seq<byte>)
    ensures |r| == |s|
    ensures forall i :: 0 <= i < |s| ==> r[i] == s[|s| - 1 - i]
  {
    seq(|s|, i requires 0 <= i < |s| => s[|s| - 1 - i])
  }

  /** bswap_16, bswap_32 and bswap_64 for n = 2, 4 and 8. */
  function ByteSwap(v: nat, n: nat): nat {
    FromLittle(Reverse(ToLittle(v, n)))
  }

  /** The n bytes of an unsigned word as a host of the given order keeps them in memory. */
  function Image(v: nat, n: nat, host: int): (s: seq<byte>)
    ensures |s| == n
  {
    if host == LITTLE_ENDIAN then ToLittle(v, n) else Reverse(ToLittle(v, n))
  }

  function FromImage(s: seq<byte>, host: int): nat {
    if host == LITTLE_ENDIAN then FromLittle(s) else FromLittle(Reverse(s))
  }

  /** The bytes written for v: swapped first unless the array's order is the host's. */
  function WireBytes(v: nat, n: nat, endian: int, host: int): (s: seq<byte>)
    ensures |s| == n
  {
    Image(if endian != host then ByteSwap(v, n) else v, n, host)
  }

  function WireValue(s: seq<byte>, endian: int, host: int): nat {
    var v := FromImage(s, host);
    if endian == host then v else ByteSwap(v, |s|)
  }

  lemma {:induction false} LittleRoundTrip(v: nat, n: nat)
    requires v < Pow2(8 * n)
    ensures FromLittle(ToLittle(v, n)) == v
    decreases n
  {
    if n != 0 {
      Pow2Times256(8 * (n - 1));
      LittleRoundTrip(v / 0x100, n - 1);
      assert ToLittle(v, n)[1..] == ToLittle(v / 0x100, n - 1);
    }
  }

  lemma {:induction false} BytesRoundTrip(s: seq<byte>)
    ensures FromLittle(s) < Pow2(8 * |s|)
    ensures ToLittle(FromLittle(s), |s|) == s
  {
    if s != [] {
      BytesRoundTrip(s[1..]);
      var v, r := FromLittle(s), FromLittle(s[1..]);
      Pow2Times256(8 * |s[1..]|);
      assert v / 0x100 == r && v % 0x100 == s[0];
      assert s == [s[0]] + s[1..];
    }
  }

  lemma ReverseTwice(s: seq<byte>)
    ensures Reverse(Reverse(s)) == s
  {
  }

  /** Swapping reverses the bytes and undoes itself. */
  lemma SwapReverses(v: nat, n: nat)
    requires v < Pow2(8 * n)
    ensures ByteSwap(v, n) < Pow2(8 * n)
    ensures ToLittle(ByteSwap(v, n), n) == Reverse(ToLittle(v, n))
    ensures ByteSwap(ByteSwap(v, n), n) == v
  {
    BytesRoundTrip(Reverse(ToLittle(v, n)));
    ReverseTwice(ToLittle(v, n));
    LittleRoundTrip(v, n);
  }

  /** What is written is read back, for every order code (also an unset one) and every host. */
  lemma WireRoundTrip(v: nat, n: nat, endian: int, host: int)
    requires v < Pow2(8 * n)
    ensures WireValue(WireBytes(v, n, endian, host), endian, host) == v
  {
    SwapReverses(v, n);
    LittleRoundTrip(v, n);
    LittleRoundTrip(ByteSwap(v, n), n);
    ReverseTwice(ToLittle(v, n));
    ReverseTwice(ToLittle(ByteSwap(v, n), n));
  }

  /** Byte number i of an integer in two's complement, counted from the low end. */
  function Digit(v: int, i: nat): byte {
    v / Pow2(8 * i) % 0x100
  }

  /** Little-endian puts the low byte first. */
  lemma {:induction false} LittleDigits(v: nat, n: nat, i: nat)
    requires i < n
    ensures ToLittle(v, n)[i] == Digit(v, i)
    decreases n
  {
    if i != 0 {
      LittleDigits(v / 0x100, n - 1, i - 1);
      Pow2Times256(8 * (i - 1));
      DivTwice(v, 0x100, Pow2(8 * (i - 1)));
    }
  }

  /** A word of w bits has the low bytes of the integer stored in it. */
  lemma WrapDigits(v: int, w: nat, i: nat)
    requires 8 * i + 8 <= w
    ensures Digit(Wrap(v, w), i) == Digit(v, i)
  {
    var p, rest := Pow2(8 * i), Pow2(w - 8 * i - 8);
    Pow2Sum(8 * i, w - 8 * i);
    Pow2Times256(w - 8 * i - 8);
    var u, k := Wrap(v, w), v / Pow2(w);
    assert v == u + k * Pow2(w) && Pow2(w) == p * (0x100 * rest);
    hide Pow2, Wrap;
    HighDigits(u, k, p, rest);
  }

  lemma HighDigits(u: nat, k: int, p: nat, rest: nat)
    requires p >= 1
    ensures (u + k * (p * (0x100 * rest))) / p % 0x100 == u / p % 0x100
  {
    var m := k * rest;
    assert k * (p * (0x100 * rest)) == (m * 0x100) * p;
    DivShift(u, m * 0x100, p);
    DivShift(u / p, m, 0x100);
  }

  /** The wire order is the one asked for, whatever the host: two hosts write the same bytes. */
  lemma WireOrder(v: nat, n: nat, endian: int, host: int)
    requires v < Pow2(8 * n)
    requires IsOrder(host)
    ensures endian == LITTLE_ENDIAN ==> forall i :: 0 <= i < n ==> WireBytes(v, n, endian, host)[i] == Digit(v, i)
    ensures endian == BIG_ENDIAN ==> forall i :: 0 <= i < n ==> WireBytes(v, n, endian, host)[i] == Digit(v, n - 1 - i)
  {
    hide ToLittle, FromLittle, Digit;
    SwapReverses(v, n);
    ReverseTwice(ToLittle(v, n));
    forall i | 0 <= i < n
      ensures ToLittle(v, n)[i] == Digit(v, i)
    {
      LittleDigits(v, n, i);
    }
  }

  /** And the value read is the one with these bytes. */
  lemma ValueOrder(s: seq<byte>, endian: int, host: int)
    requires IsOrder(host)
    ensures WireValue(s, endian, host) < Pow2(8 * |s|)
    ensures endian == LITTLE_ENDIAN ==> forall i :: 0 <= i < |s| ==> Digit(WireValue(s, endian, host), i) == s[i]
    ensures endian == BIG_ENDIAN ==> forall i :: 0 <= i < |s| ==> Digit(WireValue(s, endian, host), |s| - 1 - i) == s[i]
  {
    hide ToLittle, FromLittle, Digit, Pow2;
    var v := WireValue(s, endian, host);
    ReverseTwice(s);
    BytesRoundTrip(s);
    BytesRoundTrip(Reverse(s));
    SwapReverses(FromImage(s, host), |s|);
    forall i | 0 <= i < |s|
      ensures ToLittle(v, |s|)[i] == Digit(v, i)
    {
      LittleDigits(v, |s|, i);
    }
  }
}
