/**
 * UTF-8 (RFC 3629, section 3), the byte encoding that the abstract operation Encode
 * (ECMAScript 2022, section 19.2.6.1.1) applies to each code point before escaping it.
 * A Dafny `char` is a Unicode scalar value, so a lone surrogate cannot occur.
 */
module Utf8 {
  import opened Wrappers

  type Byte = b: int | 0 <= b < 0x100

  predicate IsContinuation(b: Byte)
  {
    0x80 <= b < 0xC0
  }

  /** The low six bits of `n` as a continuation byte `10xxxxxx`. */
  function Tail(n: int): (b: Byte)
    ensures IsContinuation(b)
  {
    0x80 + n % 0x40
  }

  /** The one- to four-byte UTF-8 sequence of one code point. */
  function EncodeChar(c: char): (bs: seq<Byte>)
    ensures 1 <= |bs| <= 4
    ensures |bs| == 1 <==> c as int < 0x80
    ensures |bs| == 1 ==> bs[0] == c as int
    ensures |bs| == 2 ==> 0xC2 <= bs[0] < 0xE0
    ensures |bs| == 3 ==> 0xE0 <= bs[0] < 0xF0
    ensures |bs| == 4 ==> 0xF0 <= bs[0] < 0xF5
    ensures forall i :: 1 <= i < |bs| ==> IsContinuation(bs[i])
  {
    var n := c as int;
    if n < 0x80 then [n]
    else if n < 0x800 then [0xC0 + n / 0x40, Tail(n)]
    else if n < 0x1_0000 then [0xE0 + n / 0x1000, Tail(n / 0x40), Tail(n)]
    else [0xF0 + n / 0x4_0000, Tail(n / 0x1000), Tail(n / 0x40), Tail(n)]
  }

  function Encode(s: string): seq<Byte>
  {
    if s == [] then [] else EncodeChar(s[0]) + Encode(s[1..])
  }

  /**
   * The code point at the front of `bs` and the number of bytes it takes;
   * None for a malformed, truncated, overlong or surrogate sequence.
   */
  function DecodeFirst(bs: seq<Byte>): (r: Option<(char, nat)>)
    requires |bs| >= 1
    ensures r.Some? ==> 1 <= r.value.1 <= |bs|
  {
    var b0 := bs[0] as int;
    if b0 < 0x80 then Some((b0 as char, 1))
    else if 0xC0 <= b0 < 0xE0 then
      if |bs| >= 2 && IsContinuation(bs[1]) then
        var n := (b0 - 0xC0) * 0x40 + (bs[1] as int - 0x80);
        if 0x80 <= n then Some((n as char, 2)) else None
      else None
    else if 0xE0 <= b0 < 0xF0 then
      if |bs| >= 3 && IsContinuation(bs[1]) && IsContinuation(bs[2]) then
        var n := (b0 - 0xE0) * 0x1000 + (bs[1] as int - 0x80) * 0x40 + (bs[2] as int - 0x80);
        if 0x800 <= n && !(0xD800 <= n < 0xE000) then Some((n as char, 3)) else None
      else None
    else if 0xF0 <= b0 < 0xF8 then
      if |bs| >= 4 && IsContinuation(bs[1]) && IsContinuation(bs[2]) && IsContinuation(bs[3]) then
        var n := (b0 - 0xF0) * 0x4_0000 + (bs[1] as int - 0x80) * 0x1000 + (bs[2] as int - 0x80) * 0x40 + (bs[3] as int - 0x80);
        if 0x1_0000 <= n < 0x11_0000 then Some((n as char, 4)) else None
      else None
    else None
  }

  function Decode(bs: seq<Byte>): Option<string>
    decreases |bs|
  {
    if bs == [] then Some("")
    else match DecodeFirst(bs)
      case None => None
      case Some((c, k)) =>
        match Decode(bs[k..])
        case None => None
        case Some(cs) => Some([c] + cs)
  }

  lemma Split2(n: int)
    requires 0 <= n
    ensures n == (n / 0x40) * 0x40 + n % 0x40
  {
  }

  lemma Split3(n: int)
    requires 0 <= n
    ensures n == (n / 0x1000) * 0x1000 + (n / 0x40 % 0x40) * 0x40 + n % 0x40
  {
    assert n / 0x40 == (n / 0x1000) * 0x40 + n / 0x40 % 0x40;
  }

  lemma Split4(n: int)
    requires 0 <= n
    ensures n == (n / 0x4_0000) * 0x4_0000 + (n / 0x1000 % 0x40) * 0x1000 + (n / 0x40 % 0x40) * 0x40 + n % 0x40
  {
    assert n / 0x1000 == (n / 0x4_0000) * 0x40 + n / 0x1000 % 0x40;
    Split3(n);
  }

  /** The decoder reads back exactly the bytes the encoder wrote for one code point. */
  lemma DecodeFirstEncodeChar(c: char, rest: seq<Byte>)
    ensures var bs := EncodeChar(c) + rest;
      DecodeFirst(bs) == Some((c, |EncodeChar(c)|))
  {
    var n := c as int;
    var e := EncodeChar(c);
    var bs := e + rest;
    assert bs[..|e|] == e;
    if n < 0x80 {
    } else if n < 0x800 {
      Split2(n);
      assert bs[0] == 0xC0 + n / 0x40 && bs[1] == 0x80 + n % 0x40;
    } else if n < 0x1_0000 {
      Split3(n);
      assert bs[0] == 0xE0 + n / 0x1000 && bs[1] == 0x80 + n / 0x40 % 0x40 && bs[2] == 0x80 + n % 0x40;
    } else {
      Split4(n);
      assert bs[0] == 0xF0 + n / 0x4_0000 && bs[1] == 0x80 + n / 0x1000 % 0x40;
      assert bs[2] == 0x80 + n / 0x40 % 0x40 && bs[3] == 0x80 + n % 0x40;
    }
  }

  /** Decoding the UTF-8 encoding of a string gives the string back. */
  lemma {:induction false} DecodeEncode(s: string)
    ensures Decode(Encode(s)) == Some(s)
    decreases |s|
  {
    if s != [] {
      var e := EncodeChar(s[0]);
      DecodeFirstEncodeChar(s[0], Encode(s[1..]));
      assert (e + Encode(s[1..]))[|e|..] == Encode(s[1..]);
      DecodeEncode(s[1..]);
      assert [s[0]] + s[1..] == s;
    }
  }

  lemma Digits2(x: int, y: int)
    requires 0 <= y < 0x40
    ensures (x * 0x40 + y) / 0x40 == x && (x * 0x40 + y) % 0x40 == y
  {
  }

  lemma Reencode2(b0: int, b1: int)
    requires 0xC0 <= b0 < 0xE0 && 0x80 <= b1 < 0xC0
    requires 0x80 <= (b0 - 0xC0) * 0x40 + (b1 - 0x80)
    ensures EncodeChar(((b0 - 0xC0) * 0x40 + (b1 - 0x80)) as char) == [b0, b1]
  {
    Digits2(b0 - 0xC0, b1 - 0x80);
  }

  lemma Reencode3(b0: int, b1: int, b2: int)
    requires 0xE0 <= b0 < 0xF0 && 0x80 <= b1 < 0xC0 && 0x80 <= b2 < 0xC0
    requires var n := (b0 - 0xE0) * 0x1000 + (b1 - 0x80) * 0x40 + (b2 - 0x80);
      0x800 <= n && !(0xD800 <= n < 0xE000)
    ensures EncodeChar(((b0 - 0xE0) * 0x1000 + (b1 - 0x80) * 0x40 + (b2 - 0x80)) as char) == [b0, b1, b2]
  {
    var n := (b0 - 0xE0) * 0x1000 + (b1 - 0x80) * 0x40 + (b2 - 0x80);
    Digits2((b0 - 0xE0) * 0x40 + (b1 - 0x80), b2 - 0x80);
    Digits2(b0 - 0xE0, b1 - 0x80);
    assert n / 0x40 == (b0 - 0xE0) * 0x40 + (b1 - 0x80);
    assert n / 0x1000 == (n / 0x40) / 0x40;
  }

  lemma Reencode4(b0: int, b1: int, b2: int, b3: int)
    requires 0xF0 <= b0 < 0xF8 && 0x80 <= b1 < 0xC0 && 0x80 <= b2 < 0xC0 && 0x80 <= b3 < 0xC0
    requires var n := (b0 - 0xF0) * 0x4_0000 + (b1 - 0x80) * 0x1000 + (b2 - 0x80) * 0x40 + (b3 - 0x80);
      0x1_0000 <= n < 0x11_0000
    ensures var n := (b0 - 0xF0) * 0x4_0000 + (b1 - 0x80) * 0x1000 + (b2 - 0x80) * 0x40 + (b3 - 0x80);
      EncodeChar(n as char) == [b0, b1, b2, b3]
  {
    var n := (b0 - 0xF0) * 0x4_0000 + (b1 - 0x80) * 0x1000 + (b2 - 0x80) * 0x40 + (b3 - 0x80);
    var hi := (b0 - 0xF0) * 0x40 + (b1 - 0x80);
    Digits2(hi * 0x40 + (b2 - 0x80), b3 - 0x80);
    Digits2(hi, b2 - 0x80);
    Digits2(b0 - 0xF0, b1 - 0x80);
    assert n / 0x40 == hi * 0x40 + (b2 - 0x80);
    assert n / 0x1000 == (n / 0x40) / 0x40;
    assert n / 0x4_0000 == (n / 0x1000) / 0x40;
  }

  /** What the decoder accepts for one code point is exactly the encoder's output for it. */
  lemma EncodeCharDecodeFirst(bs: seq<Byte>)
    requires |bs| >= 1 && DecodeFirst(bs).Some?
    ensures var (c, k) := DecodeFirst(bs).value; EncodeChar(c) == bs[..k]
  {
    var k := DecodeFirst(bs).value.1;
    if k == 2 {
      Reencode2(bs[0], bs[1]);
      assert bs[..k] == [bs[0], bs[1]];
    } else if k == 3 {
      Reencode3(bs[0], bs[1], bs[2]);
      assert bs[..k] == [bs[0], bs[1], bs[2]];
    } else if k == 4 {
      Reencode4(bs[0], bs[1], bs[2], bs[3]);
      assert bs[..k] == [bs[0], bs[1], bs[2], bs[3]];
    }
  }

  lemma DecodeCons(bs: seq<Byte>, s: string)
    requires bs != [] && Decode(bs) == Some(s)
    ensures DecodeFirst(bs).Some? && |s| >= 1
    ensures DecodeFirst(bs).value.0 == s[0]
    ensures Decode(bs[DecodeFirst(bs).value.1..]) == Some(s[1..])
  {
  }

  lemma EncodeCons(s: string)
    requires |s| >= 1
    ensures Encode(s) == EncodeChar(s[0]) + Encode(s[1..])
  {
  }

  lemma EncodeSplit(s: string, bs: seq<Byte>, k: nat)
    requires |s| >= 1 && k <= |bs|
    requires EncodeChar(s[0]) == bs[..k] && Encode(s[1..]) == bs[k..]
    ensures Encode(s) == bs
  {
    EncodeCons(s);
    assert bs[..k] + bs[k..] == bs;
  }

  /** Whatever the decoder accepts, the encoder reproduces byte for byte. */
  lemma {:induction false} EncodeDecode(bs: seq<Byte>, s: string)
    requires Decode(bs) == Some(s)
    ensures Encode(s) == bs
    decreases |bs|
  {
    if bs == [] {
      assert s == [];
    } else {
      DecodeCons(bs, s);
      var k := DecodeFirst(bs).value.1;
      EncodeCharDecodeFirst(bs);
      EncodeDecode(bs[k..], s[1..]);
      EncodeSplit(s, bs, k);
    }
  }
}
