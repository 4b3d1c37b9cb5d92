/**
 * encodeURIComponent (ECMAScript 2022, section 19.2.6.5), which calls the abstract
 * operation Encode (section 19.2.6.1.1): characters of the unreserved set pass through;
 * every other code point is written as its UTF-8 bytes, each as `%XX` with upper-case
 * hexadecimal digits.
 */
module Uri {
  import opened Wrappers
  import Utf8

  /** The characters encodeURIComponent leaves as they are: A-Z a-z 0-9 - _ . ! ~ * ' ( ) */
  predicate IsUnreserved(c: char)
  {
    || 'A' <= c <= 'Z' || 'a' <= c <= 'z' || '0' <= c <= '9'
    || c == '-' || c == '_' || c == '.' || c == '!' || c == '~' || c == '*'
    || c == '\'' || c == '(' || c == ')'
  }

  predicate IsUpperHexDigit(c: char)
  {
    '0' <= c <= '9' || 'A' <= c <= 'F'
  }

  predicate IsHexDigit(c: char)
  {
    IsUpperHexDigit(c) || 'a' <= c <= 'f'
  }

  function HexDigit(d: int): (c: char)
    requires 0 <= d < 16
    ensures IsUpperHexDigit(c)
  {
    if d < 10 then ('0' as int + d) as char else ('A' as int + d - 10) as char
  }

  function HexValue(c: char): (d: int)
    requires IsHexDigit(c)
    ensures 0 <= d < 16
  {
    if '0' <= c <= '9' then c as int - '0' as int
    else if 'A' <= c <= 'F' then c as int - 'A' as int + 10
    else c as int - 'a' as int + 10
  }

  /** One byte as `%` and two upper-case hex digits. */
  function Escape(b: Utf8.Byte): (r: string)
    ensures |r| == 3 && r[0] == '%' && IsUpperHexDigit(r[1]) && IsUpperHexDigit(r[2])
    ensures HexValue(r[1]) * 16 + HexValue(r[2]) == b
  {
    ['%', HexDigit(b / 16), HexDigit(b % 16)]
  }

  /** Every character encodeURIComponent can emit. */
  predicate IsEncodedChar(c: char)
  {
    IsUnreserved(c) || c == '%' || IsUpperHexDigit(c)
  }

  function EscapeAll(bs: seq<Utf8.Byte>): (r: string)
    ensures |r| == 3 * |bs|
    ensures forall i :: 0 <= i < |r| ==> IsEncodedChar(r[i])
  {
    if bs == [] then "" else Escape(bs[0]) + EscapeAll(bs[1..])
  }

  function EncodeChar(c: char): string
  {
    if IsUnreserved(c) then [c] else EscapeAll(Utf8.EncodeChar(c))
  }

  /** The percent-encoding of `s`: only unreserved characters, `%` and upper-case hex digits. */
  function EncodeURIComponent(s: string): (r: string)
    ensures forall i :: 0 <= i < |r| ==> IsEncodedChar(r[i])
  {
    if s == [] then "" else EncodeChar(s[0]) + EncodeURIComponent(s[1..])
  }

  /** Turns `%XX` escapes back into bytes and every other character into its UTF-8 bytes. */
  function Unescape(s: string): Option<seq<Utf8.Byte>>
    decreases |s|
  {
    if s == [] then Some([])
    else if s[0] == '%' then
      if |s| >= 3 && IsHexDigit(s[1]) && IsHexDigit(s[2]) then
        match Unescape(s[3..])
        case None => None
        case Some(rest) => Some([HexValue(s[1]) * 16 + HexValue(s[2])] + rest)
      else None
    else
      match Unescape(s[1..])
      case None => None
      case Some(rest) => Some(Utf8.EncodeChar(s[0]) + rest)
  }

  /** The inverse of the encoding: unescape, then decode the bytes as UTF-8. */
  function Decode(s: string): Option<string>
  {
    match Unescape(s)
    case None => None
    case Some(bs) => Utf8.Decode(bs)
  }

  /** The encoding of a string is the encodings of its characters, one after another. */
  lemma {:induction false} EncodeAppend(a: string, b: string)
    ensures EncodeURIComponent(a + b) == EncodeURIComponent(a) + EncodeURIComponent(b)
    decreases |a|
  {
    if a == [] {
      assert a + b == b;
    } else {
      assert (a + b)[1..] == a[1..] + b;
      EncodeAppend(a[1..], b);
    }
  }

  /** The `i`-th triple of escaped bytes is the escape of the `i`-th byte. */
  lemma {:induction false} EscapeAllBytes(bs: seq<Utf8.Byte>)
    ensures forall i :: 0 <= i < |bs| ==> EscapeAll(bs)[3 * i..3 * i + 3] == Escape(bs[i])
    decreases |bs|
  {
    if bs != [] {
      var head, tail := Escape(bs[0]), EscapeAll(bs[1..]);
      EscapeAllBytes(bs[1..]);
      assert EscapeAll(bs) == head + tail;
      forall i | 0 <= i < |bs|
        ensures (head + tail)[3 * i..3 * i + 3] == Escape(bs[i])
      {
        if i == 0 {
          assert (head + tail)[..3] == head;
        } else {
          assert bs[1..][i - 1] == bs[i];
          assert (head + tail)[3 * i..3 * i + 3] == tail[3 * (i - 1)..3 * (i - 1) + 3];
        }
      }
    }
  }

  /**
   * A character outside the unreserved set, ASCII or not, becomes one `%XX` escape with
   * upper-case hex digits per byte of its UTF-8 encoding, in order.
   */
  lemma EncodeReservedChar(c: char)
    requires !IsUnreserved(c)
    ensures var bs := Utf8.EncodeChar(c);
      var r := EncodeURIComponent([c]);
      && |r| == 3 * |bs|
      && forall i :: 0 <= i < |bs| ==> r[3 * i..3 * i + 3] == Escape(bs[i])
  {
    assert [c][1..] == [];
    assert EncodeURIComponent([c]) == EscapeAll(Utf8.EncodeChar(c)) + "";
    assert EscapeAll(Utf8.EncodeChar(c)) + "" == EscapeAll(Utf8.EncodeChar(c));
    EscapeAllBytes(Utf8.EncodeChar(c));
  }

  /** Every `%` in `r` opens an escape: two upper-case hex digits follow it. */
  predicate WellEscaped(r: string)
  {
    forall i :: 0 <= i < |r| && r[i] == '%' ==> i + 2 < |r| && IsUpperHexDigit(r[i + 1]) && IsUpperHexDigit(r[i + 2])
  }

  lemma WellEscapedAppend(a: string, b: string)
    requires WellEscaped(a) && WellEscaped(b)
    ensures WellEscaped(a + b)
  {
  }

  lemma {:induction false} EscapeAllWellEscaped(bs: seq<Utf8.Byte>)
    ensures WellEscaped(EscapeAll(bs))
    decreases |bs|
  {
    if bs != [] {
      var e := Escape(bs[0]);
      EscapeAllWellEscaped(bs[1..]);
      assert WellEscaped(e) by { assert e[1] != '%' && e[2] != '%'; }
      WellEscapedAppend(e, EscapeAll(bs[1..]));
    }
  }

  /**
   * Every `%` in an encoding is followed by two upper-case hex digits, so the escapes of
   * every character, ASCII or not, use upper-case hexadecimal.
   */
  lemma {:induction false} EncodeWellEscaped(s: string)
    ensures WellEscaped(EncodeURIComponent(s))
    decreases |s|
  {
    if s != [] {
      EncodeWellEscaped(s[1..]);
      if IsUnreserved(s[0]) {
        assert WellEscaped([s[0]]);
      } else {
        EscapeAllWellEscaped(Utf8.EncodeChar(s[0]));
      }
      WellEscapedAppend(EncodeChar(s[0]), EncodeURIComponent(s[1..]));
    }
  }

  /** An ASCII character outside the unreserved set becomes exactly `%` and its two hex digits. */
  lemma EncodeAsciiReserved(c: char)
    requires c as int < 0x80 && !IsUnreserved(c)
    ensures EncodeURIComponent([c]) == ['%', HexDigit(c as int / 16), HexDigit(c as int % 16)]
  {
    assert [c][1..] == [];
  }

  lemma {:induction false} EncodeLength(s: string)
    ensures |EncodeURIComponent(s)| >= |s|
    ensures |EncodeURIComponent(s)| == |s| ==> forall i :: 0 <= i < |s| ==> IsUnreserved(s[i])
    decreases |s|
  {
    if s != [] {
      EncodeLength(s[1..]);
      assert forall i :: 1 <= i < |s| ==> s[i] == s[1..][i - 1];
    }
  }

  /** encodeURIComponent changes a string exactly when it holds a character outside the unreserved set. */
  lemma {:induction false} EncodeIdentity(s: string)
    ensures EncodeURIComponent(s) == s <==> forall i :: 0 <= i < |s| ==> IsUnreserved(s[i])
    decreases |s|
  {
    EncodeLength(s);
    if s != [] && forall i :: 0 <= i < |s| ==> IsUnreserved(s[i]) {
      assert forall i :: 0 <= i < |s| - 1 ==> s[1..][i] == s[i + 1];
      EncodeIdentity(s[1..]);
      assert [s[0]] + s[1..] == s;
    }
  }

  /** The encoded text never holds a space, `&`, `+`, `=`, `#` or `/`, which would split or alter a query. */
  lemma EncodeHasNoDelimiters(s: string)
    ensures var r := EncodeURIComponent(s);
      ' ' !in r && '&' !in r && '+' !in r && '=' !in r && '#' !in r && '/' !in r
  {
    var r := EncodeURIComponent(s);
    forall i | 0 <= i < |r|
      ensures r[i] != ' ' && r[i] != '&' && r[i] != '+' && r[i] != '=' && r[i] != '#' && r[i] != '/'
    {
      assert IsEncodedChar(r[i]);
    }
  }

  lemma UnescapeEscape(b: Utf8.Byte, tail: string, rest: seq<Utf8.Byte>)
    requires Unescape(tail) == Some(rest)
    ensures Unescape(Escape(b) + tail) == Some([b] + rest)
  {
    var s := Escape(b) + tail;
    assert s[0] == '%' && s[1] == Escape(b)[1] && s[2] == Escape(b)[2];
    assert s[3..] == tail;
  }

  lemma EscapeAllCons(bs: seq<Utf8.Byte>, tail: string)
    requires bs != []
    ensures EscapeAll(bs) + tail == Escape(bs[0]) + (EscapeAll(bs[1..]) + tail)
  {
  }

  lemma ConsAppend(b: Utf8.Byte, bs: seq<Utf8.Byte>, rest: seq<Utf8.Byte>)
    requires bs != [] && b == bs[0]
    ensures [b] + (bs[1..] + rest) == bs + rest
  {
  }

  lemma {:induction false} UnescapeEscapeAll(bs: seq<Utf8.Byte>, tail: string, rest: seq<Utf8.Byte>)
    requires Unescape(tail) == Some(rest)
    ensures Unescape(EscapeAll(bs) + tail) == Some(bs + rest)
    decreases |bs|
  {
    if bs == [] {
      assert EscapeAll(bs) + tail == tail;
      assert bs + rest == rest;
    } else {
      UnescapeEscapeAll(bs[1..], tail, rest);
      UnescapeEscape(bs[0], EscapeAll(bs[1..]) + tail, bs[1..] + rest);
      EscapeAllCons(bs, tail);
      ConsAppend(bs[0], bs, rest);
    }
  }

  /** Unescaping the encoding yields the UTF-8 bytes of the original string. */
  lemma {:induction false} UnescapeEncode(s: string)
    ensures Unescape(EncodeURIComponent(s)) == Some(Utf8.Encode(s))
    decreases |s|
  {
    if s != [] {
      UnescapeEncode(s[1..]);
      var tail := EncodeURIComponent(s[1..]);
      if IsUnreserved(s[0]) {
        assert ([s[0]] + tail)[1..] == tail;
      } else {
        UnescapeEscapeAll(Utf8.EncodeChar(s[0]), tail, Utf8.Encode(s[1..]));
      }
    }
  }

  /** Decoding an encoded keyword gives the keyword back, so the encoding loses nothing. */
  lemma DecodeEncode(s: string)
    ensures Decode(EncodeURIComponent(s)) == Some(s)
  {
    UnescapeEncode(s);
    Utf8.DecodeEncode(s);
  }

  /** Two keywords that encode alike are the same keyword. */
  lemma EncodeInjective(s: string, t: string)
    requires EncodeURIComponent(s) == EncodeURIComponent(t)
    ensures s == t
  {
    DecodeEncode(s);
    DecodeEncode(t);
  }

  /** Between two runs of unreserved characters, only the separator changes. */
  lemma EncodeBetweenWords(a: string, sep: string, b: string)
    requires forall i :: 0 <= i < |a| ==> IsUnreserved(a[i])
    requires forall i :: 0 <= i < |b| ==> IsUnreserved(b[i])
    ensures EncodeURIComponent(a + sep + b) == a + EncodeURIComponent(sep) + b
  {
    EncodeAppend(a + sep, b);
    EncodeAppend(a, sep);
    EncodeIdentity(a);
    EncodeIdentity(b);
  }

  /** A space becomes `%20`. */
  lemma ExampleSpace()
    ensures EncodeURIComponent(" ") == "%20"
  {
  }

  /** ` & ` becomes `%20%26%20`. */
  lemma ExampleAmpersand()
    ensures EncodeURIComponent(" & ") == "%20%26%20"
  {
  }

  /** `+` becomes `%2B`, so it cannot be read back as a space. */
  lemma ExamplePlus()
    ensures EncodeURIComponent("+") == "%2B"
  {
  }

  // The three examples below take the string as a parameter fixed by `requires`: with the
  // literal in the ensures the verifier unfolds the encoding of it on its own, which is slow.

  /** `NASA & ESA` encodes as `NASA%20%26%20ESA`. */
  lemma ExampleNasaEsa(s: string)
    requires s == "NASA & ESA"
    ensures EncodeURIComponent(s) == "NASA%20%26%20ESA"
  {
    assert s == "NASA" + " & " + "ESA";
    EncodeBetweenWords("NASA", " & ", "ESA");
    ExampleAmpersand();
  }

  /** `NASA Mars` encodes as `NASA%20Mars`. */
  lemma ExampleNasaMars(s: string)
    requires s == "NASA Mars"
    ensures EncodeURIComponent(s) == "NASA%20Mars"
  {
    assert s == "NASA" + " " + "Mars";
    EncodeBetweenWords("NASA", " ", "Mars");
    ExampleSpace();
  }

  /** `Mars+Venus` encodes as `Mars%2BVenus`. */
  lemma ExampleMarsVenus(s: string)
    requires s == "Mars+Venus"
    ensures EncodeURIComponent(s) == "Mars%2BVenus"
  {
    assert s == "Mars" + "+" + "Venus";
    EncodeBetweenWords("Mars", "+", "Venus");
    ExamplePlus();
  }

  /** `100%` encodes as `100%25`. */
  lemma ExamplePercent()
    ensures EncodeURIComponent("100%") == "100%25"
  {
  }

  /** `é` (U+00E9) encodes as its two UTF-8 bytes, `%C3%A9`, with upper-case digits. */
  lemma ExampleEAcute()
    ensures EncodeURIComponent("\U{E9}") == "%C3%A9"
  {
    var bs := Utf8.EncodeChar('\U{E9}');
    assert bs == [0xC3, 0xA9];
    assert Escape(0xC3) == "%C3" && Escape(0xA9) == "%A9";
    assert EscapeAll(bs) == Escape(0xC3) + EscapeAll([0xA9]) by { assert bs[1..] == [0xA9]; }
    assert EscapeAll([0xA9]) == Escape(0xA9) + "";
    EncodeReservedChar('\U{E9}');
  }
}
