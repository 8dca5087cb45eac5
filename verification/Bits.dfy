/**
 Unsigned machine words as natural numbers.

 The bit operators are defined bit by bit, so that the codecs can be written with the
 operators their source uses; the lemmas give the arithmetic meaning of the uses that occur.
 */
module Bits {

  type byte = x: int | 0 <= x < 256

  function Pow2(n: nat): (r: nat)
    ensures r >= 1
  {
    if n == 0 then 1 else 2 * Pow2(n - 1)
  }

  function And(a: nat, b: nat): nat
    decreases a
  {
    if a == 0 || b == 0 then 0
    else 2 * And(a / 2, b / 2) + (if a % 2 == 1 && b % 2 == 1 then 1 else 0)
  }

  function Or(a: nat, b: nat): nat
    decreases a
  {
    if a == 0 then b
    else 2 * Or(a / 2, b / 2) + (if a % 2 == 1 || b % 2 == 1 then 1 else 0)
  }

  function Xor(a: nat, b: nat): nat
    decreases a
  {
    if a == 0 then b
    else 2 * Xor(a / 2, b / 2) + (if a % 2 != b % 2 then 1 else 0)
  }

  function Shl(a: nat, n: nat): nat {
    if n == 0 then a else 2 * Shl(a, n - 1)
  }

  function Shr(a: nat, n: nat): nat
    decreases n
  {
    if n == 0 then a else Shr(a / 2, n - 1)
  }

  /** The low w bits: what is kept of a natural number stored in an unsigned word of w bits. */
  function Trunc(x: nat, w: nat): nat
    decreases w
  {
    if w == 0 then 0 else 2 * Trunc(x / 2, w - 1) + x % 2
  }

  /** The value kept of any integer stored in an unsigned word of w bits. */
  function Wrap(x: int, w: nat): nat {
    x % Pow2(w)
  }

  /** The values of a size_t or uint64_t. */
  const SIZE_WORD: nat := 0x1_0000_0000_0000_0000

  /** The value kept of any integer stored in a size_t. */
  function ToSize(x: int): nat {
    x % SIZE_WORD
  }

  /** The signed reading of an unsigned word of w bits. */
  function AsSigned(u: nat, w: nat): int {
    if 2 * u < Pow2(w) then u else u - Pow2(w)
  }

  predicate FitsUnsigned(v: int, w: nat) {
    0 <= v < Pow2(w)
  }

  predicate FitsSigned(v: int, w: nat) {
    0 <= 2 * v + Pow2(w) < 2 * Pow2(w)
  }

  lemma {:induction false} Pow2Monotone(a: nat, b: nat)
    requires a <= b
    ensures Pow2(a) <= Pow2(b)
    decreases b
  {
    if a < b {
      Pow2Monotone(a, b - 1);
    }
  }

  lemma Pow2Times16(n: nat)
    ensures Pow2(n + 4) == 0x10 * Pow2(n)
  {
    assert Pow2(n + 1) == 2 * Pow2(n);
    assert Pow2(n + 2) == 4 * Pow2(n);
    assert Pow2(n + 3) == 8 * Pow2(n);
  }

  lemma Pow2Times128(n: nat)
    ensures Pow2(n + 7) == 0x80 * Pow2(n)
  {
    Pow2Times16(n + 3);
    assert Pow2(n + 1) == 2 * Pow2(n);
    assert Pow2(n + 2) == 4 * Pow2(n);
    assert Pow2(n + 3) == 8 * Pow2(n);
  }

  lemma Pow2Times256(n: nat)
    ensures Pow2(n + 8) == 0x100 * Pow2(n)
  {
    Pow2Times16(n);
    Pow2Times16(n + 4);
  }

  lemma Pow2Values()
    ensures Pow2(16) == 0x1_0000
    ensures Pow2(32) == 0x1_0000_0000
    ensures Pow2(64) == 0x1_0000_0000_0000_0000
  {
    Pow2Times256(0);
    Pow2Times256(8);
    Pow2Times2p16(16);
    Pow2Times2p16(32);
    Pow2Times2p16(48);
  }

  lemma Pow2Times2p16(n: nat)
    ensures Pow2(n + 16) == 0x1_0000 * Pow2(n)
  {
    Pow2Times256(n);
    Pow2Times256(n + 8);
  }

  lemma Shl128(a: nat, n: nat)
    ensures Shl(a, n + 7) == 0x80 * Shl(a, n)
  {
    assert Shl(a, n + 2) == 4 * Shl(a, n);
    assert Shl(a, n + 4) == 4 * Shl(a, n + 2);
    assert Shl(a, n + 6) == 4 * Shl(a, n + 4);
  }

  lemma Shl16(a: nat, n: nat)
    ensures Shl(a, n + 4) == 0x10 * Shl(a, n)
  {
    assert Shl(a, n + 2) == 4 * Shl(a, n);
  }

  /** Masking with n ones keeps the low n bits. */
  lemma {:induction false} AndMask(v: nat, n: nat)
    ensures And(v, Pow2(n) - 1) == Trunc(v, n)
    decreases n
  {
    if n != 0 {
      AndMask(v / 2, n - 1);
      HalfOnes(Pow2(n - 1));
      if v == 0 {
        TruncSmall(0, n);
      }
    }
  }

  lemma HalfOnes(p: nat)
    requires p >= 1
    ensures (2 * p - 1) / 2 == p - 1 && (2 * p - 1) % 2 == 1
  {
  }

  lemma {:induction false} TruncSmall(v: nat, n: nat)
    requires v < Pow2(n)
    ensures Trunc(v, n) == v
    decreases n
  {
    if n != 0 {
      TruncSmall(v / 2, n - 1);
    }
  }

  lemma {:induction false} TruncBound(v: nat, n: nat)
    ensures Trunc(v, n) < Pow2(n) && Trunc(v, n) <= v
    decreases n
  {
    if n != 0 {
      TruncBound(v / 2, n - 1);
    }
  }

  /** What a word keeps is the remainder. */
  lemma {:induction false} TruncIsMod(v: nat, n: nat)
    ensures Trunc(v, n) == v % Pow2(n)
    decreases n
  {
    if n != 0 {
      TruncIsMod(v / 2, n - 1);
      var p := Pow2(n - 1);
      var q, r := (v / 2) / p, (v / 2) % p;
      assert v == q * (2 * p) + (2 * r + v % 2);
      DivModUnique(v, 2 * p, q, 2 * r + v % 2);
    }
  }

  lemma TwoBits(v: nat, n: nat)
    ensures Shr(v, n + 2) == Shr(v / 4, n)
    ensures Trunc(v, n + 2) == 4 * Trunc(v / 4, n) + v % 4
  {
    assert (v / 2) / 2 == v / 4;
    assert Trunc(v, n + 2) == 2 * Trunc(v / 2, n + 1) + v % 2;
    assert Trunc(v / 2, n + 1) == 2 * Trunc(v / 4, n) + (v / 2) % 2;
    assert Shr(v, n + 2) == Shr(v / 2, n + 1);
  }

  lemma FourBits(v: nat, n: nat)
    ensures Shr(v, n + 4) == Shr(v / 16, n)
    ensures Trunc(v, n + 4) == 16 * Trunc(v / 16, n) + v % 16
  {
    TwoBits(v, n + 2);
    TwoBits(v / 4, n);
    assert (v / 4) / 4 == v / 16;
  }

  lemma SevenBits(v: nat, n: nat)
    ensures Shr(v, n + 7) == Shr(v / 128, n)
    ensures Trunc(v, n + 7) == 128 * Trunc(v / 128, n) + v % 128
  {
    FourBits(v, n + 3);
    TwoBits(v / 16, n + 1);
    var c := v / 64;
    assert (v / 16) / 4 == c && c / 2 == v / 128;
    assert Trunc(c, n + 1) == 2 * Trunc(c / 2, n) + c % 2 && Shr(c, n + 1) == Shr(c / 2, n);
    assert (v / 16) % 4 == (v % 64) / 16 && c % 2 == (v % 128) / 64;
  }

  /** The masks and shifts of the codecs, as quotients and remainders. */
  lemma Digits128(v: nat)
    ensures And(v, 0x7F) == v % 0x80 && Shr(v, 7) == v / 0x80
  {
    Pow2Times128(0);
    AndMask(v, 7);
    SevenBits(v, 0);
  }

  lemma Digits16(v: nat)
    ensures And(v, 0xF) == v % 0x10 && Shr(v, 4) == v / 0x10
  {
    Pow2Times16(0);
    AndMask(v, 4);
    FourBits(v, 0);
  }

  lemma {:induction false} OrZero(a: nat)
    ensures Or(a, 0) == a
  {
    if a != 0 {
      OrZero(a / 2);
    }
  }

  /** Or of a value below 2^n and a value shifted by n is their sum. */
  lemma {:induction false} OrDisjoint(a: nat, b: nat, n: nat)
    requires a < Pow2(n)
    ensures Or(a, Shl(b, n)) == a + Shl(b, n)
    ensures Or(Shl(b, n), a) == a + Shl(b, n)
    decreases n
  {
    if n == 0 {
      OrZero(b);
    } else {
      OrDisjoint(a / 2, b, n - 1);
      var p := Shl(b, n - 1);
      assert (2 * p) / 2 == p && (2 * p) % 2 == 0;
    }
  }

  /** Or-ing a digit shifted by i into a w-bit word adds the digit at its weight, in w bits. */
  lemma {:induction false} OrDigit(acc: nat, digit: nat, i: nat, w: nat)
    requires i <= w && acc < Pow2(i)
    ensures Or(acc, Trunc(Shl(digit, i), w)) == Trunc(acc + Shl(digit, i), w)
    decreases i
  {
    if i != 0 {
      OrDigit(acc / 2, digit, i - 1, w - 1);
      var p := Shl(digit, i - 1);
      assert (2 * p) / 2 == p && (2 * p) % 2 == 0;
      assert (acc + 2 * p) / 2 == acc / 2 + p && (acc + 2 * p) % 2 == acc % 2;
    }
  }

  /** Xor with n ones is the complement within n bits. */
  lemma {:induction false} XorOnes(a: nat, n: nat)
    requires a < Pow2(n)
    ensures Xor(a, Pow2(n) - 1) == Pow2(n) - 1 - a
    decreases n
  {
    if n != 0 {
      XorOnes(a / 2, n - 1);
      HalfOnes(Pow2(n - 1));
    }
  }

  lemma {:induction false} XorZero(a: nat)
    ensures Xor(a, 0) == a
  {
    if a != 0 {
      XorZero(a / 2);
    }
  }

  /** The quotient and the remainder are the only ones of their kind. */
  lemma DivModUnique(v: int, d: nat, q: int, r: int)
    requires d >= 1 && v == q * d + r && 0 <= r < d
    ensures v / d == q && v % d == r
  {
    var q', r' := v / d, v % d;
    assert v == q' * d + r';
    if q > q' {
      MulGap(q, q', d);
    } else if q < q' {
      MulGap(q', q, d);
    }
  }

  /** Distinct multiples of d are at least d apart. */
  lemma MulGap(a: int, b: int, d: nat)
    requires a > b
    ensures a * d >= b * d + d
  {
    assert a * d == (a - b - 1) * d + b * d + d;
    assert (a - b - 1) * d >= 0;
  }

  /** What a word of w bits keeps of an integer less than one word away from its range. */
  lemma WrapNear(x: int, w: nat)
    ensures 0 <= x < Pow2(w) ==> Wrap(x, w) == x
    ensures 0 - Pow2(w) <= x < 0 ==> Wrap(x, w) == x + Pow2(w)
    ensures Pow2(w) <= x < 2 * Pow2(w) ==> Wrap(x, w) == x - Pow2(w)
  {
    var p := Pow2(w);
    if 0 <= x < p {
      DivModUnique(x, p, 0, x);
    } else if 0 - p <= x < 0 {
      DivModUnique(x, p, -1, x + p);
    } else if p <= x < 2 * p {
      DivModUnique(x, p, 1, x - p);
    }
  }

  /** A signed value survives being stored in an unsigned word of its width. */
  lemma WrapSigned(v: int, w: nat)
    requires FitsSigned(v, w)
    ensures FitsUnsigned(Wrap(v, w), w) && AsSigned(Wrap(v, w), w) == v
  {
    WrapNear(v, w);
  }

  // ---------- Bytes of a number ----------

  lemma {:induction false} Pow2Sum(a: nat, b: nat)
    ensures Pow2(a + b) == Pow2(a) * Pow2(b)
    decreases b
  {
    if b != 0 {
      Pow2Sum(a, b - 1);
      assert Pow2(a) * (2 * Pow2(b - 1)) == 2 * (Pow2(a) * Pow2(b - 1));
    }
  }

  /** Dividing twice is dividing by the product. */
  lemma DivTwice(v: int, a: nat, b: nat)
    requires a >= 1 && b >= 1
    ensures a * b >= 1 && (v / a) / b == v / (a * b)
  {
    var q, r := v / a, v % a;
    var q', r' := q / b, q % b;
    assert v == q * a + r && q == q' * b + r';
    assert (q' * b + r') * a == q' * (a * b) + r' * a;
    MulGap(b, r', a);
    assert r' * a >= 0;
    assert a * b == b * a >= 1;
    DivModUnique(v, a * b, q', r' * a + r);
  }

  /** Adding a multiple of the divisor adds to the quotient alone. */
  lemma DivShift(u: int, k: int, d: nat)
    requires d >= 1
    ensures (u + k * d) / d == u / d + k && (u + k * d) % d == u % d
  {
    var q, r := u / d, u % d;
    assert u + k * d == (q + k) * d + r by { assert (q + k) * d == q * d + k * d; }
    DivModUnique(u + k * d, d, q + k, r);
  }
}
