/**
 * The parts of `JSON.stringify` and `JSON.parse` the extension exercises:
 * string quoting and its inverse, integer literals, and JSON whitespace.
 */
module Json {
  import opened Wrappers
  import opened JsText

  /** Lower-case hexadecimal digit, as `JSON.stringify` writes it in `\u00XX`. */
  function LowerHexDigit(v: int): char
    requires 0 <= v < 16
  {
    if v < 10 then ('0' as int + v) as char else ('a' as int + v - 10) as char
  }

  predicate IsHexDigit(c: char)
  {
    ('0' <= c <= '9') || ('a' <= c <= 'f') || ('A' <= c <= 'F')
  }

  function HexDigitValue(c: char): (v: int)
    requires IsHexDigit(c)
    ensures 0 <= v < 16
  {
    if c <= '9' then c as int - '0' as int
    else if c <= 'F' then c as int - 'A' as int + 10
    else c as int - 'a' as int + 10
  }

  /** How `JSON.stringify` writes one character inside a string literal. */
  function EscapeChar(c: char): string
  {
    var n := c as int;
    if c == '"' then "\\\""
    else if c == '\\' then "\\\\"
    else if n == 0x08 then "\\b"
    else if n == 0x09 then "\\t"
    else if n == 0x0A then "\\n"
    else if n == 0x0C then "\\f"
    else if n == 0x0D then "\\r"
    else if n < 0x20 then "\\u00" + [LowerHexDigit(n / 16), LowerHexDigit(n % 16)]
    else [c]
  }

  function Escape(s: string): string
  {
    if s == [] then [] else EscapeChar(s[0]) + Escape(s[1..])
  }

  /** A JSON string literal for `s`. */
  function Quote(s: string): string
  {
    "\"" + Escape(s) + "\""
  }

  function Prepend(c: char, r: Option<(string, string)>): Option<(string, string)>
  {
    match r
    case None => None
    case Some((t, rest)) => Some(([c] + t, rest))
  }

  /**
   * The characters of a string literal after its opening quote, up to the
   * closing quote: the decoded text and what follows the literal.  Raw
   * control characters, unknown escapes and `\u` escapes of surrogates
   * are rejected.
   */
  function ParseStringBody(s: string): (r: Option<(string, string)>)
    ensures r.Some? ==> |r.value.1| < |s|
    decreases |s|
  {
    if s == [] then None
    else if s[0] == '"' then Some(([], s[1..]))
    else if s[0] == '\\' then
      if |s| < 2 then None
      else
        var e := s[1];
        if e == '"' || e == '\\' || e == '/' then Prepend(e, ParseStringBody(s[2..]))
        else if e == 'b' then Prepend(0x08 as char, ParseStringBody(s[2..]))
        else if e == 'f' then Prepend(0x0C as char, ParseStringBody(s[2..]))
        else if e == 'n' then Prepend(0x0A as char, ParseStringBody(s[2..]))
        else if e == 'r' then Prepend(0x0D as char, ParseStringBody(s[2..]))
        else if e == 't' then Prepend(0x09 as char, ParseStringBody(s[2..]))
        else if e == 'u' && |s| >= 6 && IsHexDigit(s[2]) && IsHexDigit(s[3]) && IsHexDigit(s[4]) && IsHexDigit(s[5]) then
          var v := HexDigitValue(s[2]) * 4096 + HexDigitValue(s[3]) * 256 + HexDigitValue(s[4]) * 16 + HexDigitValue(s[5]);
          if 0xD800 <= v < 0xE000 then None else Prepend(v as char, ParseStringBody(s[6..]))
        else None
    else if (s[0] as int) < 0x20 then None
    else Prepend(s[0], ParseStringBody(s[1..]))
  }

  /** A string literal at the front of `s`: its text and what follows it. */
  function ParseString(s: string): (r: Option<(string, string)>)
    ensures r.Some? ==> |r.value.1| < |s|
  {
    if |s| > 0 && s[0] == '"' then ParseStringBody(s[1..]) else None
  }

  predicate HasShortEscape(c: char)
  {
    var n := c as int;
    c == '"' || c == '\\' || n == 0x08 || n == 0x09 || n == 0x0A || n == 0x0C || n == 0x0D
  }

  lemma ParseShortEscape(c: char, tail: string)
    requires HasShortEscape(c)
    ensures ParseStringBody(EscapeChar(c) + tail) == Prepend(c, ParseStringBody(tail))
  {
    var t := EscapeChar(c) + tail;
    assert |EscapeChar(c)| == 2 && t[0] == '\\';
    assert t[2..] == tail;
  }

  lemma ParseUnicodeEscape(c: char, tail: string)
    requires !HasShortEscape(c) && (c as int) < 0x20
    ensures ParseStringBody(EscapeChar(c) + tail) == Prepend(c, ParseStringBody(tail))
  {
    var n := c as int;
    var h1, h2 := LowerHexDigit(n / 16), LowerHexDigit(n % 16);
    var t := EscapeChar(c) + tail;
    assert EscapeChar(c) == ['\\', 'u', '0', '0', h1, h2];
    assert t[0] == '\\' && t[1] == 'u' && t[2] == '0' && t[3] == '0' && t[4] == h1 && t[5] == h2;
    assert HexDigitValue(h1) == n / 16 && HexDigitValue(h2) == n % 16;
    assert t[6..] == tail;
  }

  lemma ParseEscapedChar(c: char, tail: string)
    ensures ParseStringBody(EscapeChar(c) + tail) == Prepend(c, ParseStringBody(tail))
  {
    if HasShortEscape(c) {
      ParseShortEscape(c, tail);
    } else if (c as int) < 0x20 {
      ParseUnicodeEscape(c, tail);
    } else {
      assert (EscapeChar(c) + tail)[1..] == tail;
    }
  }

  lemma {:induction false} ParseEscaped(s: string, tail: string)
    ensures ParseStringBody(Escape(s) + "\"" + tail) == Some((s, tail))
  {
    if s == [] {
      assert Escape(s) + "\"" + tail == "\"" + tail;
    } else {
      assert Escape(s) + "\"" + tail == EscapeChar(s[0]) + (Escape(s[1..]) + "\"" + tail);
      ParseEscapedChar(s[0], Escape(s[1..]) + "\"" + tail);
      ParseEscaped(s[1..], tail);
      assert [s[0]] + s[1..] == s;
    }
  }

  /** Reading a quoted string back gives the string and leaves what followed it. */
  lemma ParseQuote(s: string, tail: string)
    ensures ParseString(Quote(s) + tail) == Some((s, tail))
  {
    assert (Quote(s) + tail)[1..] == Escape(s) + "\"" + tail;
    ParseEscaped(s, tail);
  }

  lemma {:induction false} EscapeAscii(s: string)
    requires IsAscii(s)
    ensures IsAscii(Escape(s))
  {
    if s != [] {
      EscapeAscii(s[1..]);
      var e := EscapeChar(s[0]);
      assert IsAscii(e);
      assert Escape(s) == e + Escape(s[1..]);
    }
  }

  lemma QuoteAscii(s: string)
    requires IsAscii(s)
    ensures IsAscii(Quote(s))
  {
    EscapeAscii(s);
  }

  /** JSON whitespace: space, tab, line feed, carriage return. */
  predicate IsWs(c: char)
  {
    c == ' ' || c == '\t' || c == '\n' || c == '\r'
  }

  function SkipWs(s: string): (r: string)
    ensures |r| <= |s|
    ensures r == [] || !IsWs(r[0])
  {
    if |s| > 0 && IsWs(s[0]) then SkipWs(s[1..]) else s
  }

  lemma {:induction false} SkipWsPrefix(w: string, t: string)
    requires forall i :: 0 <= i < |w| ==> IsWs(w[i])
    requires t == [] || !IsWs(t[0])
    ensures SkipWs(w + t) == t
  {
    if w != [] {
      assert (w + t)[1..] == w[1..] + t;
      SkipWsPrefix(w[1..], t);
    } else {
      assert w + t == t;
    }
  }

  /** Length of the run of decimal digits at the front of `s`. */
  function DigitRun(s: string): (k: nat)
    ensures k <= |s|
    ensures forall i :: 0 <= i < k ==> IsDigit(s[i])
    ensures k < |s| ==> !IsDigit(s[k])
  {
    if |s| > 0 && IsDigit(s[0]) then 1 + DigitRun(s[1..]) else 0
  }

  /** The value of a digit string, most significant digit first. */
  function DigitsValue(ds: string): nat
    requires forall i :: 0 <= i < |ds| ==> IsDigit(ds[i])
  {
    if ds == [] then 0
    else
      assert IsDigit(ds[|ds| - 1]);
      DigitsValue(ds[..|ds| - 1]) * 10 + (ds[|ds| - 1] as int - '0' as int)
  }

  /** An unsigned JSON integer at the front of `s`; a leading zero may not be followed by a digit. */
  function ParseNat(s: string): (r: Option<(nat, string)>)
    ensures r.Some? ==> |r.value.1| < |s|
  {
    var k := DigitRun(s);
    if k == 0 || (s[0] == '0' && k > 1) then None else Some((DigitsValue(s[..k]), s[k..]))
  }

  /** An optionally negative JSON integer at the front of `s`. */
  function ParseInt(s: string): (r: Option<(int, string)>)
    ensures r.Some? ==> |r.value.1| < |s|
  {
    if |s| > 0 && s[0] == '-' then
      match ParseNat(s[1..])
      case None => None
      case Some((n, rest)) => var v: int := 0 - (n as int); Some((v, rest))
    else
      match ParseNat(s)
      case None => None
      case Some((n, rest)) => Some((n, rest))
  }

  lemma {:induction false} DigitRunOf(ds: string, tail: string)
    requires forall i :: 0 <= i < |ds| ==> IsDigit(ds[i])
    requires tail == [] || !IsDigit(tail[0])
    ensures DigitRun(ds + tail) == |ds|
  {
    if ds != [] {
      assert (ds + tail)[1..] == ds[1..] + tail;
      DigitRunOf(ds[1..], tail);
    } else {
      assert ds + tail == tail;
    }
  }

  lemma {:induction false} DigitsValueOfNat(n: nat)
    ensures DigitsValue(NatToString(n)) == n
    decreases n
  {
    var ds := NatToString(n);
    if n >= 10 {
      DigitsValueOfNat(n / 10);
      assert ds[..|ds| - 1] == NatToString(n / 10);
    }
  }

  /** Reading back the decimal text of an integer gives the integer. */
  lemma ParseIntOfString(i: int, tail: string)
    requires tail == [] || !IsDigit(tail[0])
    ensures ParseInt(IntToString(i) + tail) == Some((i, tail))
  {
    var n: nat := if i < 0 then -i else i;
    var ds := NatToString(n);
    DigitRunOf(ds, tail);
    DigitsValueOfNat(n);
    assert (ds + tail)[..|ds|] == ds;
    assert (ds + tail)[|ds|..] == tail;
    if i < 0 {
      assert ("-" + ds + tail)[1..] == ds + tail;
    } else {
      assert IntToString(i) + tail == ds + tail;
    }
  }

  lemma {:induction false} NatToStringAscii(n: nat)
    ensures IsAscii(NatToString(n))
  {
  }
}
