/**
 Percent-encoding as in sylar/util.cc. The loops walk the string and start an output buffer
 only at the first byte that changes; they are proved equal to the per-byte definitions here,
 and decoding is proved to undo encoding.
 */
module UrlCodec {
  import opened Wrappers
  import opened Bits

  const PERCENT: byte := 37
  const PLUS: byte := 43
  const SPACE: byte := 32

  predicate IsDigit(c: byte) { 48 <= c <= 57 }

  predicate IsUpper(c: byte) { 65 <= c <= 90 }

  predicate IsLower(c: byte) { 97 <= c <= 122 }

  /** The table uri_chars: letters, digits, '-', '.', '_', '~' and also '='. */
  predicate Unreserved(c: byte) {
    IsDigit(c) || IsUpper(c) || IsLower(c) || c == 45 || c == 46 || c == 61 || c == 95 || c == 126
  }

  predicate IsHex(c: byte) {
    IsDigit(c) || 65 <= c <= 70 || 97 <= c <= 102
  }

  /** The table xdigit_chars; 0 for everything that is not a hexadecimal digit. */
  function XDigit(c: byte): (r: nat)
    ensures r < 16
  {
    if IsDigit(c) then c - 48 else if 65 <= c <= 70 then c - 55 else if 97 <= c <= 102 then c - 87 else 0
  }

  /** "0123456789ABCDEF"[n] */
  function HexDigit(n: nat): byte
    requires n < 16
  {
    if n < 10 then 48 + n else 55 + n
  }

  // ---------- Per-byte definitions ----------

  function EncodeByte(c: byte, plus: bool): (s: seq<byte>)
    ensures |s| >= 1
  {
    if Unreserved(c) then [c]
    else if c == SPACE && plus then [PLUS]
    else [PERCENT, HexDigit(c / 16), HexDigit(c % 16)]
  }

  function Encode(s: seq<byte>, plus: bool): seq<byte> {
    if s == [] then [] else EncodeByte(s[0], plus) + Encode(s[1..], plus)
  }

  /** An escape that decoding accepts: a percent sign and two hexadecimal digits. */
  predicate Escape(s: seq<byte>) {
    |s| >= 3 && s[0] == PERCENT && IsHex(s[1]) && IsHex(s[2])
  }

  function Decode(s: seq<byte>, plus: bool): seq<byte> {
    if s == [] then []
    else if s[0] == PLUS && plus then [SPACE] + Decode(s[1..], plus)
    else if Escape(s) then [XDigit(s[1]) * 16 + XDigit(s[2])] + Decode(s[3..], plus)
    else [s[0]] + Decode(s[1..], plus)
  }

  // ---------- The loops ----------

  lemma {:induction false} EncodeAppend(s: seq<byte>, c: byte, plus: bool)
    ensures Encode(s + [c], plus) == Encode(s, plus) + EncodeByte(c, plus)
  {
    hide EncodeByte;
    if s == [] {
      assert [c][1..] == [];
    } else {
      EncodeAppend(s[1..], c, plus);
      assert (s + [c])[1..] == s[1..] + [c];
    }
  }

  lemma NibbleBits(c: byte)
    ensures Shr(c, 4) == c / 16 && And(c, 0xF) == c % 16 && c / 16 < 16
  {
    Digits16(c);
  }

  method UrlEncode(str: seq<byte>, spaceAsPlus: bool) returns (r: seq<byte>)
    ensures r == Encode(str, spaceAsPlus)
  {
    hide Shr, And, Encode, HexDigit, Unreserved;
    var ss: Option<seq<byte>> := None;
    var c := 0;
    EncodeEmpty(str[..0], spaceAsPlus);
    while c < |str|
      invariant c <= |str|
      invariant Encode(str[..c], spaceAsPlus) == if ss.None? then str[..c] else ss.value
    {
      assert str[..c + 1] == str[..c] + [str[c]];
      EncodeAppend(str[..c], str[c], spaceAsPlus);
      NibbleBits(str[c]);
      if !Unreserved(str[c]) {
        if ss.None? {
          ss := Some(str[..c]);
        }
        if str[c] == SPACE && spaceAsPlus {
          ss := Some(ss.value + [PLUS]);
        } else {
          ss := Some(ss.value + [PERCENT] + [HexDigit(Shr(str[c], 4))] + [HexDigit(And(str[c], 0xF))]);
        }
      } else if ss.Some? {
        ss := Some(ss.value + [str[c]]);
      }
      c := c + 1;
    }
    assert str[..c] == str;
    return if ss.None? then str else ss.value;
  }

  lemma EncodeEmpty(s: seq<byte>, plus: bool)
    requires s == []
    ensures Encode(s, plus) == []
  {
  }

  lemma JoinDigits(h: nat, l: nat)
    requires h < 16 && l < 16
    ensures Or(Shl(h, 4), l) == h * 16 + l
  {
    hide Or;
    Pow2Times16(0);
    OrDisjoint(l, h, 4);
    Shl16(h, 0);
  }

  /** One turn of the decoding loop at position c. */
  lemma DecodeStep(str: seq<byte>, c: nat, plus: bool)
    requires c < |str|
    ensures var rest := str[c..];
            if str[c] == PLUS && plus then
              Decode(rest, plus) == [SPACE] + Decode(str[c + 1..], plus)
            else if Escape(rest) then
              Decode(rest, plus) == [XDigit(str[c + 1]) * 16 + XDigit(str[c + 2])] + Decode(str[c + 3..], plus)
            else Decode(rest, plus) == [str[c]] + Decode(str[c + 1..], plus)
  {
    var rest := str[c..];
    assert rest[1..] == str[c + 1..];
    assert |rest| >= 3 ==> rest[3..] == str[c + 3..];
  }

  method UrlDecode(str: seq<byte>, spaceAsPlus: bool) returns (r: seq<byte>)
    ensures r == Decode(str, spaceAsPlus)
  {
    hide Decode, Shl, Or, XDigit;
    var ss: Option<seq<byte>> := None;
    var c := 0;
    assert str[0..] == str;
    while c < |str|
      invariant c <= |str|
      invariant Decode(str, spaceAsPlus)
             == (if ss.None? then str[..c] else ss.value) + Decode(str[c..], spaceAsPlus)
    {
      DecodeStep(str, c, spaceAsPlus);
      if str[c] == PLUS && spaceAsPlus {
        if ss.None? {
          ss := Some(str[..c]);
        }
        ss := Some(ss.value + [SPACE]);
      } else if str[c] == PERCENT && c + 2 < |str| && IsHex(str[c + 1]) && IsHex(str[c + 2]) {
        JoinDigits(XDigit(str[c + 1]), XDigit(str[c + 2]));
        if ss.None? {
          ss := Some(str[..c]);
        }
        ss := Some(ss.value + [Or(Shl(XDigit(str[c + 1]), 4), XDigit(str[c + 2]))]);
        c := c + 2;
      } else if ss.Some? {
        ss := Some(ss.value + [str[c]]);
      } else {
        assert str[..c + 1] == str[..c] + [str[c]];
      }
      c := c + 1;
    }
    assert str[..c] == str;
    DecodeEmpty(str[c..], spaceAsPlus);
    return if ss.None? then str else ss.value;
  }

  lemma DecodeEmpty(s: seq<byte>, plus: bool)
    requires s == []
    ensures Decode(s, plus) == []
  {
  }

  // ---------- The tables ----------

  lemma DigitsAre(c: byte)
    ensures IsDigit(c) <==> c as char in "0123456789"
  {
    assert IsDigit(c) ==> "0123456789"[c - 48] == c as char;
  }

  lemma UpperAre(c: byte)
    ensures IsUpper(c) <==> c as char in "ABCDEFGHIJKLMNOPQRSTUVWXYZ"
  {
    assert IsUpper(c) ==> "ABCDEFGHIJKLMNOPQRSTUVWXYZ"[c - 65] == c as char;
  }

  lemma LowerAre(c: byte)
    ensures IsLower(c) <==> c as char in "abcdefghijklmnopqrstuvwxyz"
  {
    assert IsLower(c) ==> "abcdefghijklmnopqrstuvwxyz"[c - 97] == c as char;
  }

  /** The bytes that stay as they are, spelled out. */
  lemma UnreservedAre(c: byte, plus: bool)
    ensures EncodeByte(c, plus) == [c] <==>
              || c as char in "0123456789" || c as char in "ABCDEFGHIJKLMNOPQRSTUVWXYZ"
              || c as char in "abcdefghijklmnopqrstuvwxyz" || c as char in "-._~="
  {
    DigitsAre(c);
    UpperAre(c);
    LowerAre(c);
  }

  /** h is hexadecimal digit n, in either case. */
  predicate Spells(h: byte, n: nat)
    requires n < 16
  {
    h as char == "0123456789ABCDEF"[n] || h as char == "0123456789abcdef"[n]
  }

  lemma HexSpelled(h: byte, n: nat)
    requires n < 16
    ensures Spells(h, n) <==> IsHex(h) && XDigit(h) == n
    ensures HexDigit(n) as char == "0123456789ABCDEF"[n]
  {
  }

  /** A byte that is not unreserved is a percent sign and its two digits, in upper case. */
  lemma EncodeReserved(c: byte, plus: bool)
    requires !Unreserved(c) && !(c == SPACE && plus)
    ensures |EncodeByte(c, plus)| == 3 && EncodeByte(c, plus)[0] as char == '%'
    ensures EncodeByte(c, plus)[1] as char == "0123456789ABCDEF"[c / 16]
    ensures EncodeByte(c, plus)[2] as char == "0123456789ABCDEF"[c % 16]
  {
    HexSpelled(0, c / 16);
    HexSpelled(0, c % 16);
  }

  /** An escape decodes to its byte whichever case its digits have, and nothing else is an escape. */
  lemma DecodeEscape(s: seq<byte>, plus: bool)
    requires |s| >= 3 && s[0] == PERCENT
    ensures forall h: nat, l: nat | h < 16 && l < 16 && Spells(s[1], h) && Spells(s[2], l) ::
              Decode(s, plus) == [16 * h + l] + Decode(s[3..], plus)
    ensures (forall h: nat, l: nat | h < 16 && l < 16 :: !(Spells(s[1], h) && Spells(s[2], l))) ==>
              Decode(s, plus) == [PERCENT] + Decode(s[1..], plus)
  {
    hide Spells, IsHex, XDigit;
    forall h: nat, l: nat | h < 16 && l < 16 && Spells(s[1], h) && Spells(s[2], l)
      ensures Decode(s, plus) == [16 * h + l] + Decode(s[3..], plus)
    {
      HexSpelled(s[1], h);
      HexSpelled(s[2], l);
    }
    HexSpelled(s[1], XDigit(s[1]));
    HexSpelled(s[2], XDigit(s[2]));
  }

  /** Everything else stands for itself, apart from a plus that stands for a space. */
  lemma DecodePlain(s: seq<byte>, plus: bool)
    requires s != [] && (s[0] as char != '%' || |s| < 3)
    ensures Decode(s, plus) == [if s[0] as char == '+' && plus then 32 else s[0]] + Decode(s[1..], plus)
  {
  }

  // ---------- Laws ----------

  /** What decoding makes of the code of one byte, whatever follows. */
  lemma DecodeOne(c: byte, plus: bool, plus': bool, rest: seq<byte>)
    ensures Decode(EncodeByte(c, plus) + rest, plus')
         == [if c == SPACE && plus && !plus' then PLUS else c] + Decode(rest, plus')
  {
    var e := EncodeByte(c, plus);
    var s := e + rest;
    if |e| == 1 {
      assert s[1..] == rest;
    } else {
      assert s[0] == PERCENT && s[1] == HexDigit(c / 16) && s[2] == HexDigit(c % 16);
      assert Escape(s) && s[3..] == rest;
      assert XDigit(HexDigit(c / 16)) == c / 16 && XDigit(HexDigit(c % 16)) == c % 16;
    }
  }

  /** The bytes that come back when a string is encoded with one flag and decoded with another. */
  function Back(s: seq<byte>, plus: bool, plus': bool): (r: seq<byte>)
    ensures |r| == |s|
    ensures forall i :: 0 <= i < |s| ==> r[i] == if s[i] == SPACE && plus && !plus' then PLUS else s[i]
  {
    seq(|s|, i requires 0 <= i < |s| => if s[i] == SPACE && plus && !plus' then PLUS else s[i])
  }

  lemma {:induction false} DecodeEncode(s: seq<byte>, plus: bool, plus': bool)
    ensures Decode(Encode(s, plus), plus') == Back(s, plus, plus')
  {
    if s != [] {
      hide EncodeByte, Decode;
      DecodeEncode(s[1..], plus, plus');
      DecodeOne(s[0], plus, plus', Encode(s[1..], plus));
      assert Back(s, plus, plus') == [Back(s, plus, plus')[0]] + Back(s[1..], plus, plus');
    } else {
      assert Back(s, plus, plus') == [];
    }
  }

  /**
   Decoding with the flag used for encoding gives back every byte string. With different flags
   it does so exactly unless spaces were written as plus signs and are not read as spaces.
   */
  lemma RoundTrip(s: seq<byte>, plus: bool, plus': bool)
    ensures Decode(Encode(s, plus), plus) == s
    ensures Decode(Encode(s, plus), plus') == s <==> !(plus && !plus' && SPACE in s)
  {
    hide Decode, Encode;
    DecodeEncode(s, plus, plus);
    DecodeEncode(s, plus, plus');
    assert Back(s, plus, plus) == s;
    if plus && !plus' && SPACE in s {
      var i :| 0 <= i < |s| && s[i] == SPACE;
      assert Back(s, plus, plus')[i] != s[i];
    } else {
      assert Back(s, plus, plus') == s;
    }
  }

  /** A space that becomes a plus and is not read as one comes back as a plus. */
  lemma SpaceLost()
    ensures Encode([32], true) == [43] && Decode([43], true) == [32] && Decode(Encode([32], true), false) == [43]
  {
    DecodeEncode([SPACE], true, false);
    assert Back([SPACE], true, false) == [PLUS];
  }

  /** Different strings have different encodings. */
  lemma EncodeInjective(s: seq<byte>, t: seq<byte>, plus: bool)
    requires Encode(s, plus) == Encode(t, plus)
    ensures s == t
  {
    RoundTrip(s, plus, plus);
    RoundTrip(t, plus, plus);
  }

  /** An encoding holds unreserved bytes, percent signs and plus signs only: it is safe in a URL. */
  lemma {:induction false} EncodeSafe(s: seq<byte>, plus: bool)
    ensures forall c <- Encode(s, plus) :: Unreserved(c) || c == PERCENT || (c == PLUS && plus)
  {
    if s != [] {
      EncodeSafe(s[1..], plus);
      EncodeByteSafe(s[0], plus);
    }
  }

  lemma EncodeByteSafe(c: byte, plus: bool)
    ensures forall x <- EncodeByte(c, plus) :: Unreserved(x) || x == PERCENT || (x == PLUS && plus)
  {
  }
}
