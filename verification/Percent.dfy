/** encodeURIComponent and decodeURIComponent (ECMA-262 section 19.2.6) over Unicode scalar values. */
module Percent {
  import opened Prelude

  /** The characters that encodeURIComponent leaves alone. */
  predicate IsUnreserved(c: char) {
    'a' <= c <= 'z' || 'A' <= c <= 'Z' || '0' <= c <= '9' || c in "-_.!~*'()"
  }

  type Byte = b: int | 0 <= b < 256

  function HexChar(d: nat): char
    requires d < 16
  {
    "0123456789ABCDEF"[d]
  }

  function Escape(b: Byte): string {
    ['%', HexChar(b / 16), HexChar(b % 16)]
  }

  function HexValue(c: char): Option<nat> {
    var d := DigitValue(c);
    if 0 <= d < 16 then Some(d) else None
  }

  function Unescape(s: string): (b: Option<Byte>)
    requires |s| == 3
  {
    if s[0] != '%' then None else
    var high :- HexValue(s[1]);
    var low :- HexValue(s[2]);
    if high < 16 && low < 16 then Some(high * 16 + low) else None
  }

  lemma HexRoundTrip(d: nat)
    requires d < 16
    ensures HexValue(HexChar(d)) == Some(d)
  {
  }

  lemma EscapeRoundTrip(b: Byte)
    ensures Unescape(Escape(b)) == Some(b)
  {
    HexRoundTrip(b / 16);
    HexRoundTrip(b % 16);
  }

  /** A continuation byte holds six bits. */
  function Continuation(bits: nat): (b: Byte)
    ensures 0x80 <= b < 0xC0 && b - 0x80 == bits % 64
  {
    0x80 + bits % 64
  }

  /** The UTF-8 bytes of a character. */
  function Utf8(c: char): (bytes: seq<Byte>)
    ensures 1 <= |bytes| <= 4
  {
    var n: nat := c as int;
    var n1: nat := n / 64;
    var n2: nat := n1 / 64;
    if n < 0x80 then [n]
    else if n < 0x800 then [0xC0 + n1, Continuation(n)]
    else if n < 0x10000 then [0xE0 + n2, Continuation(n1), Continuation(n)]
    else [0xF0 + n2 / 64, Continuation(n2), Continuation(n1), Continuation(n)]
  }

  /** The number of bytes of a UTF-8 sequence, from its first byte. */
  function Utf8Length(first: Byte): nat {
    if first < 0x80 then 1
    else if 0xC0 <= first < 0xE0 then 2
    else if 0xE0 <= first < 0xF0 then 3
    else if 0xF0 <= first < 0xF8 then 4
    else 0
  }

  function Append(n: int, continuation: Byte): int {
    n * 64 + (continuation as int - 0x80)
  }

  function Utf8Decode(bytes: seq<Byte>): Option<char>
    requires bytes != [] && Utf8Length(bytes[0]) == |bytes|
  {
    if exists b :: b in bytes[1..] && !(0x80 <= b < 0xC0) then None else
    if |bytes| == 1 then Some(bytes[0] as char) else
    var n := if |bytes| == 2 then Append(bytes[0] as int - 0xC0, bytes[1])
             else if |bytes| == 3 then Append(Append(bytes[0] as int - 0xE0, bytes[1]), bytes[2])
             else Append(Append(Append(bytes[0] as int - 0xF0, bytes[1]), bytes[2]), bytes[3]);
    var least := if |bytes| == 2 then 0x80 else if |bytes| == 3 then 0x800 else 0x10000;
    if least <= n < 0xD800 || (0xE000 <= n < 0x110000 && least <= n) then Some(n as char) else None
  }

  lemma Utf8RoundTrip(c: char)
    ensures Utf8Length(Utf8(c)[0]) == |Utf8(c)|
    ensures Utf8Decode(Utf8(c)) == Some(c)
  {
  }

  /** The UTF-8 bytes of a character (section 3 of RFC 3629): a first byte that tells their number, and
      continuation bytes with six bits each. */
  lemma Utf8Bytes(c: char)
    ensures var n, b := c as int, Utf8(c);
            && (n < 0x80 ==> b == [n])
            && (0x80 <= n < 0x800 ==> |b| == 2 && 0xC0 <= b[0] < 0xE0 && n == Bits(b[0], 0xC0) * 64 + Bits(b[1], 0x80))
            && (0x800 <= n < 0x10000 ==> |b| == 3 && 0xE0 <= b[0] < 0xF0 && n == (Bits(b[0], 0xE0) * 64 + Bits(b[1], 0x80)) * 64 + Bits(b[2], 0x80))
            && (0x10000 <= n ==> |b| == 4 && 0xF0 <= b[0] < 0xF8
                                 && n == ((Bits(b[0], 0xF0) * 64 + Bits(b[1], 0x80)) * 64 + Bits(b[2], 0x80)) * 64 + Bits(b[3], 0x80))
            && forall i :: 1 <= i < |b| ==> 0x80 <= b[i] < 0xC0
  {
  }

  function Bits(b: Byte, base: int): int {
    b as int - base
  }

  /** An escaped byte is a percent sign and two upper case hexadecimal digits. */
  lemma EscapeText(b: Byte)
    ensures var s := Escape(b);
            && |s| == 3 && s[0] == '%' && s[1] in "0123456789ABCDEF" && s[2] in "0123456789ABCDEF"
            && DigitValue(s[1]) * 16 + DigitValue(s[2]) == b
  {
    HexRoundTrip(b / 16);
    HexRoundTrip(b % 16);
    assert HexChar(b / 16) == "0123456789ABCDEF"[b / 16] && HexChar(b % 16) == "0123456789ABCDEF"[b % 16];
  }

  function Escapes(bytes: seq<Byte>): (s: string)
    ensures |s| == 3 * |bytes|
  {
    if bytes == [] then "" else Escape(bytes[0]) + Escapes(bytes[1..])
  }

  function EncodeChar(c: char): (s: string)
    ensures s != []
  {
    if IsUnreserved(c) then [c] else Escapes(Utf8(c))
  }

  function Encode(s: string): string {
    if s == [] then "" else EncodeChar(s[0]) + Encode(s[1..])
  }

  /** A character is encoded as itself if it is a letter, a digit or one of -_.!~*'(), and else by the
      escapes of its UTF-8 bytes. */
  lemma EncodedText(c: char)
    ensures Encode([c]) == if 'a' <= c <= 'z' || 'A' <= c <= 'Z' || '0' <= c <= '9' || c in "-_.!~*'()" then [c]
                           else match |Utf8(c)|
                                case 1 => Escape(Utf8(c)[0])
                                case 2 => Escape(Utf8(c)[0]) + Escape(Utf8(c)[1])
                                case 3 => Escape(Utf8(c)[0]) + Escape(Utf8(c)[1]) + Escape(Utf8(c)[2])
                                case _ => Escape(Utf8(c)[0]) + Escape(Utf8(c)[1]) + Escape(Utf8(c)[2]) + Escape(Utf8(c)[3])
  {
    assert [c][1..] == [] && Encode([]) == "";
    assert EncodeChar(c) + "" == EncodeChar(c);
    EscapesText(Utf8(c));
  }

  lemma EscapesText(b: seq<Byte>)
    requires 1 <= |b| <= 4
    ensures Escapes(b) == match |b|
                          case 1 => Escape(b[0])
                          case 2 => Escape(b[0]) + Escape(b[1])
                          case 3 => Escape(b[0]) + Escape(b[1]) + Escape(b[2])
                          case _ => Escape(b[0]) + Escape(b[1]) + Escape(b[2]) + Escape(b[3])
  {
    if |b| == 1 {
      assert Escapes(b[1..]) == "";
      assert Escape(b[0]) + "" == Escape(b[0]);
    } else if |b| == 2 {
      EscapesText(b[1..]);
    } else if |b| == 3 {
      EscapesText(b[1..]);
      Assoc(Escape(b[0]), Escape(b[1]), Escape(b[2]));
    } else {
      EscapesText(b[1..]);
      Assoc(Escape(b[0]), Escape(b[1]) + Escape(b[2]), Escape(b[3]));
      Assoc(Escape(b[0]), Escape(b[1]), Escape(b[2]));
    }
  }

  function UnescapeAll(s: string): (bytes: Option<seq<Byte>>)
    requires |s| % 3 == 0
    ensures bytes.Some? ==> 3 * |bytes.value| == |s|
  {
    if s == "" then Some([]) else
    var first :- Unescape(s[..3]);
    var rest :- UnescapeAll(s[3..]);
    Some([first] + rest)
  }

  /** The first character of an encoded string and the number of characters it takes there. */
  function DecodeChar(s: string): (r: Option<(char, nat)>)
    requires s != []
    ensures r.Some? ==> 1 <= r.value.1 <= |s|
  {
    if s[0] != '%' then Some((s[0], 1)) else
    if |s| < 3 then None else
    var first :- Unescape(s[..3]);
    var n := Utf8Length(first);
    if n == 0 || |s| < 3 * n then None else
    var bytes :- UnescapeAll(s[..3 * n]);
    assert bytes != [];
    if bytes[0] != first then None else
    var c :- Utf8Decode(bytes);
    Some((c, 3 * n))
  }

  /** decodeURIComponent; None stands for the URIError. */
  function Decode(s: string): Option<string> {
    if s == "" then Some("") else
    var first :- DecodeChar(s);
    var rest :- Decode(s[first.1..]);
    Some([first.0] + rest)
  }

  lemma {:induction false} UnescapeEscapes(bytes: seq<Byte>)
    ensures UnescapeAll(Escapes(bytes)) == Some(bytes)
  {
    if bytes != [] {
      UnescapeEscapes(bytes[1..]);
      EscapeRoundTrip(bytes[0]);
      var s := Escapes(bytes);
      assert s[..3] == Escape(bytes[0]) && s[3..] == Escapes(bytes[1..]);
      assert bytes == [bytes[0]] + bytes[1..];
    }
  }

  lemma DecodeEncodedChar(c: char, rest: string)
    ensures DecodeChar(EncodeChar(c) + rest) == Some((c, |EncodeChar(c)|))
  {
    var s := EncodeChar(c) + rest;
    if !IsUnreserved(c) {
      var bytes := Utf8(c);
      Utf8RoundTrip(c);
      EscapeRoundTrip(bytes[0]);
      UnescapeEscapes(bytes);
      assert s[..3] == Escape(bytes[0]);
      assert s[..3 * |bytes|] == Escapes(bytes);
    }
  }

  /** decodeURIComponent undoes encodeURIComponent on every string of Unicode scalar values. */
  lemma {:induction false} RoundTrip(s: string)
    ensures Decode(Encode(s)) == Some(s)
  {
    if s != [] {
      RoundTrip(s[1..]);
      DecodeEncodedChar(s[0], Encode(s[1..]));
      assert Encode(s)[|EncodeChar(s[0])|..] == Encode(s[1..]);
      assert s == [s[0]] + s[1..];
    }
  }

  /** What an encoded string is made of: neither '|', '=', ';', '/', '#', '?' nor white space. */
  predicate IsEncodedChar(c: char) {
    IsUnreserved(c) || c == '%'
  }

  lemma {:induction false} EscapesPlain(bytes: seq<Byte>)
    ensures forall c :: c in Escapes(bytes) ==> c == '%' || '0' <= c <= '9' || 'A' <= c <= 'F'
  {
    if bytes != [] { EscapesPlain(bytes[1..]); }
  }

  lemma {:induction false} EncodePlain(s: string)
    ensures forall c :: c in Encode(s) ==> IsEncodedChar(c)
  {
    if s != [] {
      EncodePlain(s[1..]);
      EscapesPlain(Utf8(s[0]));
    }
  }
}
