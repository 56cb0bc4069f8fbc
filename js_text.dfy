/**
 * The handful of JavaScript string primitives the extension relies on:
 * truthiness of optional strings, case mapping, `String.prototype.trim`
 * and the decimal rendering of integers.
 */
module JsText {
  import opened Wrappers

  /** JavaScript truthiness of a string that may be absent: `null`, `undefined` and `""` are falsy. */
  predicate Truthy(s: Option<string>)
  {
    s.Some? && s.value != ""
  }

  /** Every character is in the ASCII range. */
  predicate IsAscii(s: string)
  {
    forall i :: 0 <= i < |s| ==> s[i] as int < 0x80
  }

  lemma AsciiConcat(a: string, b: string)
    requires IsAscii(a) && IsAscii(b)
    ensures IsAscii(a + b)
  {
  }

  predicate IsAsciiLower(c: char) { 'a' <= c <= 'z' }

  predicate IsAsciiUpper(c: char) { 'A' <= c <= 'Z' }

  /** `toUpperCase` on one character (ASCII letters only, see README). */
  function UpperChar(c: char): char
  {
    if IsAsciiLower(c) then (c as int - 32) as char else c
  }

  /** `toLowerCase` on one character (ASCII letters only, see README). */
  function LowerChar(c: char): char
  {
    if IsAsciiUpper(c) then (c as int + 32) as char else c
  }

  function ToUpperCase(s: string): string
  {
    seq(|s|, i requires 0 <= i < |s| => UpperChar(s[i]))
  }

  function ToLowerCase(s: string): string
  {
    seq(|s|, i requires 0 <= i < |s| => LowerChar(s[i]))
  }

  /** WhiteSpace and LineTerminator code points, the set `String.prototype.trim` removes. */
  predicate IsJsSpace(c: char)
  {
    var n := c as int;
    n == 0x09 || n == 0x0A || n == 0x0B || n == 0x0C || n == 0x0D || n == 0x20 ||
    n == 0xA0 || n == 0x1680 || (0x2000 <= n <= 0x200A) || n == 0x2028 || n == 0x2029 ||
    n == 0x202F || n == 0x205F || n == 0x3000 || n == 0xFEFF
  }

  function TrimStart(s: string): string
  {
    if |s| > 0 && IsJsSpace(s[0]) then TrimStart(s[1..]) else s
  }

  function TrimEnd(s: string): string
  {
    if |s| > 0 && IsJsSpace(s[|s| - 1]) then TrimEnd(s[..|s| - 1]) else s
  }

  /** `String.prototype.trim`. */
  function Trim(s: string): string
  {
    TrimEnd(TrimStart(s))
  }

  lemma {:induction false} TrimStartOfSpaces(w: string, t: string)
    requires forall i :: 0 <= i < |w| ==> IsJsSpace(w[i])
    requires t == [] || !IsJsSpace(t[0])
    ensures TrimStart(w + t) == t
  {
    if w != [] {
      assert (w + t)[1..] == w[1..] + t;
      TrimStartOfSpaces(w[1..], t);
    }
  }

  lemma {:induction false} TrimEndOfSpaces(t: string, w: string)
    requires forall i :: 0 <= i < |w| ==> IsJsSpace(w[i])
    requires t == [] || !IsJsSpace(t[|t| - 1])
    ensures TrimEnd(t + w) == t
  {
    if w != [] {
      assert (t + w)[..|t + w| - 1] == t + w[..|w| - 1];
      TrimEndOfSpaces(t, w[..|w| - 1]);
    } else {
      assert t + w == t;
    }
  }

  /** Trimming a text that is bordered by one newline on each side and whose own ends are not blank. */
  lemma TrimNewlines(body: string)
    requires |body| > 0 && !IsJsSpace(body[0]) && !IsJsSpace(body[|body| - 1])
    ensures Trim("\n" + body + "\n") == body
  {
    assert "\n" + body + "\n" == "\n" + (body + "\n");
    TrimStartOfSpaces("\n", body + "\n");
    TrimEndOfSpaces(body, "\n");
  }

  predicate IsDigit(c: char) { '0' <= c <= '9' }

  function DigitChar(d: int): (c: char)
    requires 0 <= d < 10
    ensures IsDigit(c)
  {
    ('0' as int + d) as char
  }

  /** Decimal rendering of a natural number, most significant digit first, no leading zeros. */
  function NatToString(n: nat): (r: string)
    ensures |r| > 0 && forall i :: 0 <= i < |r| ==> IsDigit(r[i])
    ensures r[0] == '0' ==> n == 0 && |r| == 1
    decreases n
  {
    if n < 10 then [DigitChar(n)] else NatToString(n / 10) + [DigitChar(n % 10)]
  }

  /** `String(n)` for an integer-valued JavaScript number (below 1e21). */
  function IntToString(i: int): string
  {
    if i < 0 then "-" + NatToString(-i) else NatToString(i)
  }
}
