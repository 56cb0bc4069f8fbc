/**
 * Bytes, JavaScript "binary strings" (one character per byte) and the
 * base64 encoding of section 4 of RFC 4648, with `btoa` and `atob`.
 */
module Bytes {

  type Byte = b: int | 0 <= b < 256

  predicate IsBinaryString(s: string)
  {
    forall i :: 0 <= i < |s| ==> s[i] as int < 256
  }

  /** The binary string whose character codes are `bs`. */
  function CharsOf(bs: seq<Byte>): (s: string)
    ensures |s| == |bs| && IsBinaryString(s)
    ensures forall i :: 0 <= i < |bs| ==> s[i] as int == bs[i]
  {
    seq(|bs|, i requires 0 <= i < |bs| => bs[i] as char)
  }

  /** The bytes held by a binary string. */
  function BytesOf(s: string): (bs: seq<Byte>)
    requires IsBinaryString(s)
    ensures |bs| == |s| && CharsOf(bs) == s
  {
    seq(|s|, i requires 0 <= i < |s| => s[i] as int)
  }

  lemma BytesOfCharsOf(bs: seq<Byte>)
    ensures BytesOf(CharsOf(bs)) == bs
  {
  }
}

module Base64 {
  import opened Wrappers
  import opened Bytes

  /** The character of the base64 alphabet (RFC 4648, Table 1) that stands for the 6-bit value `v`. */
  function CharOf(v: int): (c: char)
    requires 0 <= v < 64
    ensures c != '='
  {
    if v < 26 then ('A' as int + v) as char
    else if v < 52 then ('a' as int + v - 26) as char
    else if v < 62 then ('0' as int + v - 52) as char
    else if v == 62 then '+'
    else '/'
  }

  /** The 6-bit value of an alphabet character, or -1 for any other character (the pad `=` included). */
  function ValueOf(c: char): (v: int)
    ensures -1 <= v < 64
    ensures v >= 0 ==> CharOf(v) == c
  {
    if 'A' <= c <= 'Z' then c as int - 'A' as int
    else if 'a' <= c <= 'z' then c as int - 'a' as int + 26
    else if '0' <= c <= '9' then c as int - '0' as int + 52
    else if c == '+' then 62
    else if c == '/' then 63
    else -1
  }

  lemma ValueOfCharOf(v: int)
    requires 0 <= v < 64
    ensures ValueOf(CharOf(v)) == v
  {
  }

  predicate IsAlphabetChar(c: char) { ValueOf(c) >= 0 }

  /** Three bytes as four characters. */
  function EncodeGroup(b0: Byte, b1: Byte, b2: Byte): string
  {
    [CharOf(b0 / 4), CharOf((b0 % 4) * 16 + b1 / 16), CharOf((b1 % 16) * 4 + b2 / 64), CharOf(b2 % 64)]
  }

  /** Padded base64 encoding of a byte string. */
  function Encode(bs: seq<Byte>): (r: string)
    ensures |r| == (|bs| + 2) / 3 * 4
    decreases |bs|
  {
    if |bs| >= 3 then EncodeGroup(bs[0], bs[1], bs[2]) + Encode(bs[3..])
    else if |bs| == 2 then [CharOf(bs[0] / 4), CharOf((bs[0] % 4) * 16 + bs[1] / 16), CharOf((bs[1] % 16) * 4), '=']
    else if |bs| == 1 then [CharOf(bs[0] / 4), CharOf((bs[0] % 4) * 16), '=', '=']
    else []
  }

  /** The first byte of a group, from its first two 6-bit values. */
  function Byte0(v0: int, v1: int): Byte
    requires 0 <= v0 < 64 && 0 <= v1 < 64
  {
    v0 * 4 + v1 / 16
  }

  /** The second byte of a group, from its second and third 6-bit values. */
  function Byte1(v1: int, v2: int): Byte
    requires 0 <= v1 < 64 && 0 <= v2 < 64
  {
    (v1 % 16) * 16 + v2 / 4
  }

  /** The third byte of a group, from its last two 6-bit values. */
  function Byte2(v2: int, v3: int): Byte
    requires 0 <= v2 < 64 && 0 <= v3 < 64
  {
    (v2 % 4) * 64 + v3
  }

  /**
   * Decoding of padded base64: None for a length that is not a multiple of
   * four, a character outside the alphabet, or padding anywhere but at the end.
   */
  function Decode(s: string): (r: Option<seq<Byte>>)
    decreases |s|
  {
    if |s| == 0 then Some([])
    else if |s| < 4 then None
    else
      var v0, v1, v2, v3 := ValueOf(s[0]), ValueOf(s[1]), ValueOf(s[2]), ValueOf(s[3]);
      if v0 < 0 || v1 < 0 then None
      else if |s| == 4 && s[2] == '=' && s[3] == '=' then Some([Byte0(v0, v1)])
      else if |s| == 4 && v2 >= 0 && s[3] == '=' then Some([Byte0(v0, v1), Byte1(v1, v2)])
      else if v2 < 0 || v3 < 0 then None
      else
        match Decode(s[4..])
        case None => None
        case Some(rest) => Some([Byte0(v0, v1), Byte1(v1, v2), Byte2(v2, v3)] + rest)
  }

  lemma GroupRoundTrip(b0: Byte, b1: Byte, b2: Byte)
    ensures Byte0(b0 / 4, (b0 % 4) * 16 + b1 / 16) == b0
    ensures Byte1((b0 % 4) * 16 + b1 / 16, (b1 % 16) * 4 + b2 / 64) == b1
    ensures Byte2((b1 % 16) * 4 + b2 / 64, b2 % 64) == b2
  {
  }

  /** A full group of four characters decodes to its three bytes, then decoding goes on after it. */
  lemma DecodeGroup(b0: Byte, b1: Byte, b2: Byte, t: string, rest: seq<Byte>)
    requires Decode(t) == Some(rest)
    ensures Decode(EncodeGroup(b0, b1, b2) + t) == Some([b0, b1, b2] + rest)
  {
    var s := EncodeGroup(b0, b1, b2) + t;
    GroupRoundTrip(b0, b1, b2);
    ValueOfCharOf(b0 / 4);
    ValueOfCharOf((b0 % 4) * 16 + b1 / 16);
    ValueOfCharOf((b1 % 16) * 4 + b2 / 64);
    ValueOfCharOf(b2 % 64);
    assert s[4..] == t;
  }

  lemma DecodePair(b0: Byte, b1: Byte)
    ensures Decode(Encode([b0, b1])) == Some([b0, b1])
  {
    GroupRoundTrip(b0, b1, 0);
    ValueOfCharOf(b0 / 4);
    ValueOfCharOf((b0 % 4) * 16 + b1 / 16);
    ValueOfCharOf((b1 % 16) * 4);
  }

  lemma DecodeSingle(b0: Byte)
    ensures Decode(Encode([b0])) == Some([b0])
  {
    GroupRoundTrip(b0, 0, 0);
    ValueOfCharOf(b0 / 4);
    ValueOfCharOf((b0 % 4) * 16);
  }

  /** Decoding undoes encoding, for every byte string. */
  lemma {:induction false} DecodeEncode(bs: seq<Byte>)
    ensures Decode(Encode(bs)) == Some(bs)
    decreases |bs|
  {
    if |bs| >= 3 {
      var t := Encode(bs[3..]);
      DecodeEncode(bs[3..]);
      DecodeGroup(bs[0], bs[1], bs[2], t, bs[3..]);
      assert bs == [bs[0], bs[1], bs[2]] + bs[3..];
      assert Encode(bs) == EncodeGroup(bs[0], bs[1], bs[2]) + t;
    } else if |bs| == 2 {
      DecodePair(bs[0], bs[1]);
      assert bs == [bs[0], bs[1]];
    } else if |bs| == 1 {
      DecodeSingle(bs[0]);
      assert bs == [bs[0]];
    }
  }

  /** Every character of an encoding belongs to the alphabet or is the pad. */
  lemma {:induction false} EncodeAlphabet(bs: seq<Byte>)
    ensures forall i :: 0 <= i < |Encode(bs)| ==> IsAlphabetChar(Encode(bs)[i]) || Encode(bs)[i] == '='
    decreases |bs|
  {
    if |bs| >= 3 {
      EncodeAlphabet(bs[3..]);
      ValueOfCharOf(bs[0] / 4);
      ValueOfCharOf((bs[0] % 4) * 16 + bs[1] / 16);
      ValueOfCharOf((bs[1] % 16) * 4 + bs[2] / 64);
      ValueOfCharOf(bs[2] % 64);
      var g := EncodeGroup(bs[0], bs[1], bs[2]);
      forall i | 0 <= i < |Encode(bs)|
        ensures IsAlphabetChar(Encode(bs)[i]) || Encode(bs)[i] == '='
      {
        if i >= 4 { assert Encode(bs)[i] == Encode(bs[3..])[i - 4]; }
      }
    } else if |bs| == 2 {
      ValueOfCharOf(bs[0] / 4);
      ValueOfCharOf((bs[0] % 4) * 16 + bs[1] / 16);
      ValueOfCharOf((bs[1] % 16) * 4);
    } else if |bs| == 1 {
      ValueOfCharOf(bs[0] / 4);
      ValueOfCharOf((bs[0] % 4) * 16);
    }
  }

  /** `btoa`: encodes a binary string; a character above 0xFF makes it throw (None). */
  function Btoa(s: string): (r: Option<string>)
    ensures r.Some? <==> IsBinaryString(s)
  {
    if IsBinaryString(s) then Some(Encode(BytesOf(s))) else None
  }

  /** `atob` on canonical padded base64: the decoded bytes as a binary string; invalid input throws (None). */
  function Atob(s: string): (r: Option<string>)
    ensures r.Some? ==> IsBinaryString(r.value)
  {
    match Decode(s)
    case None => None
    case Some(bs) => Some(CharsOf(bs))
  }

  /** `atob(btoa(s)) == s` for every binary string. */
  lemma AtobBtoa(s: string)
    requires IsBinaryString(s)
    ensures Atob(Btoa(s).value) == Some(s)
  {
    DecodeEncode(BytesOf(s));
  }
}
