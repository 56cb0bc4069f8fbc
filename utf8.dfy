/**
 * UTF-8 (RFC 3629) and the `encodeURIComponent` / escape-replacement
 * pipeline that `base64EncodeUnicode` uses to turn text into a binary string.
 */
module Utf8 {
  import opened Bytes
  import opened JsText

  /** The UTF-8 bytes of one Unicode scalar value. */
  function EncodeChar(c: char): (bs: seq<Byte>)
    ensures 1 <= |bs| <= 4
    ensures |bs| == 1 <==> c as int < 0x80
  {
    var n := c as int;
    if n < 0x80 then [n]
    else if n < 0x800 then [0xC0 + n / 64, 0x80 + n % 64]
    else if n < 0x10000 then [0xE0 + n / 4096, 0x80 + (n / 64) % 64, 0x80 + n % 64]
    else [0xF0 + n / 262144, 0x80 + (n / 4096) % 64, 0x80 + (n / 64) % 64, 0x80 + n % 64]
  }

  /** The code point held by a one- to four-byte UTF-8 sequence, read back from its lead and continuation bytes. */
  function DecodeSequence(bs: seq<Byte>): int
    requires 1 <= |bs| <= 4
  {
    var b := seq(|bs|, i requires 0 <= i < |bs| => bs[i] as int);
    if |b| == 1 then b[0]
    else if |b| == 2 then (b[0] - 0xC0) * 64 + (b[1] - 0x80)
    else if |b| == 3 then (b[0] - 0xE0) * 4096 + (b[1] - 0x80) * 64 + (b[2] - 0x80)
    else (b[0] - 0xF0) * 262144 + (b[1] - 0x80) * 4096 + (b[2] - 0x80) * 64 + (b[3] - 0x80)
  }

  /** The lead byte announces the sequence length and every continuation byte is 10xxxxxx. */
  predicate WellFormedSequence(bs: seq<Byte>)
  {
    && 1 <= |bs| <= 4
    && (|bs| == 1 ==> bs[0] < 0x80)
    && (|bs| == 2 ==> 0xC0 <= bs[0] < 0xE0)
    && (|bs| == 3 ==> 0xE0 <= bs[0] < 0xF0)
    && (|bs| == 4 ==> 0xF0 <= bs[0] < 0xF8)
    && forall i :: 1 <= i < |bs| ==> 0x80 <= bs[i] < 0xC0
  }

  /** Each character's encoding is a well-formed sequence that reads back as the character. */
  lemma EncodeCharDecodes(c: char)
    ensures WellFormedSequence(EncodeChar(c))
    ensures DecodeSequence(EncodeChar(c)) == c as int
  {
    var n := c as int;
    if n >= 0x10000 {
      SplitBase64Digits(n / 64);
      SplitBase64Digits(n);
      assert n / 4096 == (n / 64) / 64;
      assert n / 262144 == (n / 4096) / 64;
    } else if n >= 0x800 {
      SplitBase64Digits(n);
      assert n / 4096 == (n / 64) / 64;
    }
  }

  lemma SplitBase64Digits(n: nat)
    ensures n == (n / 64) * 64 + n % 64
  {
  }

  /** UTF-8 encoding of a string. */
  function Encode(s: string): seq<Byte>
  {
    if s == [] then [] else EncodeChar(s[0]) + Encode(s[1..])
  }

  /** On ASCII text UTF-8 is the identity: the bytes, read as a binary string, are the text itself. */
  lemma {:induction false} EncodeAscii(s: string)
    requires IsAscii(s)
    ensures CharsOf(Encode(s)) == s
  {
    if s != [] {
      EncodeAscii(s[1..]);
      assert CharsOf(Encode(s)) == CharsOf(EncodeChar(s[0])) + CharsOf(Encode(s[1..]));
      assert s == [s[0]] + s[1..];
    }
  }

  /** The characters `encodeURIComponent` leaves as they are. */
  predicate IsUnreserved(c: char)
  {
    ('A' <= c <= 'Z') || ('a' <= c <= 'z') || ('0' <= c <= '9') ||
    c == '-' || c == '_' || c == '.' || c == '!' || c == '~' || c == '*' || c == '\'' || c == '(' || c == ')'
  }

  /** Upper-case hexadecimal digit, as `encodeURIComponent` writes it. */
  function HexDigit(v: int): (c: char)
    requires 0 <= v < 16
    ensures IsUpperHexDigit(c)
  {
    if v < 10 then ('0' as int + v) as char else ('A' as int + v - 10) as char
  }

  predicate IsUpperHexDigit(c: char)
  {
    ('0' <= c <= '9') || ('A' <= c <= 'F')
  }

  function HexValue(c: char): (v: int)
    requires IsUpperHexDigit(c)
    ensures 0 <= v < 16
  {
    if c <= '9' then c as int - '0' as int else c as int - 'A' as int + 10
  }

  lemma HexValueOfDigit(v: int)
    requires 0 <= v < 16
    ensures HexValue(HexDigit(v)) == v
  {
  }

  /** `%XY` for every byte. */
  function Escapes(bs: seq<Byte>): string
  {
    if bs == [] then [] else ['%', HexDigit(bs[0] / 16), HexDigit(bs[0] % 16)] + Escapes(bs[1..])
  }

  /** `encodeURIComponent`: unreserved characters as they are, every other one as the escapes of its UTF-8 bytes. */
  function EncodeURIComponent(s: string): string
  {
    if s == [] then []
    else (if IsUnreserved(s[0]) then [s[0]] else Escapes(EncodeChar(s[0]))) + EncodeURIComponent(s[1..])
  }

  /**
   * `t.replace(/%([0-9A-F]{2})/g, (_, p1) => String.fromCharCode("0x" + p1))`:
   * scanning left to right, each `%` followed by two upper-case hex digits
   * becomes the character with that code; everything else is copied.
   */
  function ReplaceEscapes(t: string): string
  {
    if |t| >= 3 && t[0] == '%' && IsUpperHexDigit(t[1]) && IsUpperHexDigit(t[2]) then
      [(HexValue(t[1]) * 16 + HexValue(t[2])) as char] + ReplaceEscapes(t[3..])
    else if t == [] then []
    else [t[0]] + ReplaceEscapes(t[1..])
  }

  /** The two hex digits of a byte read back as that byte. */
  lemma HexPair(b: Byte)
    ensures HexValue(HexDigit(b / 16)) * 16 + HexValue(HexDigit(b % 16)) == b as int
  {
    HexValueOfDigit(b / 16);
    HexValueOfDigit(b % 16);
  }

  lemma {:induction false} ReplaceEscapesOfEscapes(bs: seq<Byte>, rest: string)
    ensures ReplaceEscapes(Escapes(bs) + rest) == CharsOf(bs) + ReplaceEscapes(rest)
  {
    if bs != [] {
      var t := Escapes(bs) + rest;
      assert t == ['%', HexDigit(bs[0] / 16), HexDigit(bs[0] % 16)] + (Escapes(bs[1..]) + rest);
      assert t[3..] == Escapes(bs[1..]) + rest;
      ReplaceEscapesOfEscapes(bs[1..], rest);
      assert t[0] == '%' && t[1] == HexDigit(bs[0] / 16) && t[2] == HexDigit(bs[0] % 16);
      HexPair(bs[0]);
      assert ReplaceEscapes(t) == [bs[0] as char] + ReplaceEscapes(t[3..]);
      assert CharsOf(bs) == [bs[0] as char] + CharsOf(bs[1..]);
    } else {
      assert Escapes(bs) + rest == rest && CharsOf(bs) + ReplaceEscapes(rest) == ReplaceEscapes(rest);
    }
  }

  /**
   * Percent-encoding and then replacing every escape by its byte yields the
   * UTF-8 bytes of the text as a binary string.
   */
  lemma {:induction false} ReplaceEscapesOfEncoded(s: string)
    ensures ReplaceEscapes(EncodeURIComponent(s)) == CharsOf(Encode(s))
  {
    if s != [] {
      var c := s[0];
      var rest := EncodeURIComponent(s[1..]);
      ReplaceEscapesOfEncoded(s[1..]);
      assert CharsOf(Encode(s)) == CharsOf(EncodeChar(c)) + CharsOf(Encode(s[1..]));
      if IsUnreserved(c) {
        assert EncodeURIComponent(s) == [c] + rest;
        assert ([c] + rest)[1..] == rest;
        assert CharsOf(EncodeChar(c)) == [c];
      } else {
        ReplaceEscapesOfEscapes(EncodeChar(c), rest);
      }
    }
  }
}
