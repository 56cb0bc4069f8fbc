/**
 * The pure helpers of the background worker: difficulty normalisation,
 * the base64 encoding of text, the PNG data-URL prefix, the
 * language-to-extension table and the README generator.
 */
module Helpers {
  import opened Wrappers
  import opened JsText
  import opened Bytes
  import Base64
  import Utf8
  import opened StatsDoc

  // ---- normalizeDifficulty ----

  /** `normalizeDifficulty`: "Easy" for a falsy input, else the first character upper-cased and the rest lower-cased. */
  function NormalizeDifficulty(d: Option<string>): (r: string)
    ensures |r| > 0
  {
    if !Truthy(d) then "Easy" else ToUpperCase(d.value[..1]) + ToLowerCase(d.value[1..])
  }

  /** A leading character that is not a lower-case letter, then no upper-case letters. */
  predicate Capitalized(s: string)
  {
    |s| > 0 && !IsAsciiLower(s[0]) && forall i :: 1 <= i < |s| ==> !IsAsciiUpper(s[i])
  }

  /** A falsy difficulty becomes "Easy"; any other is capitalised and keeps its letters up to case. */
  lemma NormalizeCharacterized(d: Option<string>)
    ensures !Truthy(d) ==> NormalizeDifficulty(d) == "Easy"
    ensures Truthy(d) ==> Capitalized(NormalizeDifficulty(d))
    ensures Truthy(d) ==> ToLowerCase(NormalizeDifficulty(d)) == ToLowerCase(d.value)
  {
    if Truthy(d) {
      var s := d.value;
      var u := ToUpperCase(s[..1]);
      var l := ToLowerCase(s[1..]);
      var r := NormalizeDifficulty(d);
      assert r == u + l;
      assert r[0] == UpperChar(s[0]);
      forall i | 1 <= i < |r| ensures r[i] == LowerChar(s[i]) {
        assert r[i] == l[i - 1];
      }
      assert ToLowerCase(r) == ToLowerCase(s) by {
        forall i | 0 <= i < |r| ensures ToLowerCase(r)[i] == ToLowerCase(s)[i] {
          if i == 0 {
            assert LowerChar(UpperChar(s[0])) == LowerChar(s[0]);
          }
        }
      }
    }
  }

  /** The normalised form is the only capitalised string with the same letters up to case. */
  lemma NormalizeUnique(s: string, x: string)
    requires |s| > 0 && Capitalized(x) && ToLowerCase(x) == ToLowerCase(s)
    ensures x == NormalizeDifficulty(Some(s))
  {
    var r := NormalizeDifficulty(Some(s));
    assert |x| == |s|;
    forall i | 0 <= i < |x| ensures x[i] == r[i] {
      assert ToLowerCase(x)[i] == ToLowerCase(s)[i];
      if i == 0 {
        assert r[0] == UpperChar(s[0]);
      } else {
        assert r[i] == ToLowerCase(s[1..])[i - 1] == LowerChar(s[i]);
      }
    }
  }

  lemma NormalizeIdempotent(d: Option<string>)
    ensures NormalizeDifficulty(Some(NormalizeDifficulty(d))) == NormalizeDifficulty(d)
  {
    var r := NormalizeDifficulty(d);
    NormalizeCharacterized(d);
    NormalizeUnique(r, r);
  }

  lemma NormalizeExamples()
    ensures NormalizeDifficulty(Some("easy")) == "Easy"
    ensures NormalizeDifficulty(Some("MEDIUM")) == "Medium"
    ensures NormalizeDifficulty(Some("hard")) == "Hard"
    ensures NormalizeDifficulty(Some("")) == "Easy"
    ensures NormalizeDifficulty(None) == "Easy"
  {
    NormalizeUnique("easy", "Easy");
    NormalizeUnique("MEDIUM", "Medium");
    NormalizeUnique("hard", "Hard");
  }

  // ---- base64EncodeUnicode ----

  /**
   * `btoa(encodeURIComponent(s).replace(/%([0-9A-F]{2})/g, ...))`.  The
   * replacement always yields a binary string, so `btoa` never throws, and
   * the result is the base64 encoding of the UTF-8 bytes of `s`.
   */
  function Base64EncodeUnicode(s: string): (r: string)
    ensures r == Base64.Encode(Utf8.Encode(s))
  {
    Utf8.ReplaceEscapesOfEncoded(s);
    BytesOfCharsOf(Utf8.Encode(s));
    Base64.Btoa(Utf8.ReplaceEscapes(Utf8.EncodeURIComponent(s))).value
  }

  /** `atob` of the encoding gives back the UTF-8 bytes, one character per byte. */
  lemma AtobOfEncodeUnicode(s: string)
    ensures Base64.Atob(Base64EncodeUnicode(s)) == Some(CharsOf(Utf8.Encode(s)))
  {
    Base64.DecodeEncode(Utf8.Encode(s));
  }

  /** For ASCII text `atob(base64EncodeUnicode(s)) == s`. */
  lemma AtobOfEncodeAscii(s: string)
    requires IsAscii(s)
    ensures Base64.Atob(Base64EncodeUnicode(s)) == Some(s)
  {
    AtobOfEncodeUnicode(s);
    Utf8.EncodeAscii(s);
  }

  // ---- stripBase64Prefix ----

  const PngDataUrlPrefix := "data:image/png;base64,"

  /** `dataUrl.replace(/^data:image\/png;base64,/, "")`. */
  function StripBase64Prefix(dataUrl: string): (r: string)
    ensures PngDataUrlPrefix <= dataUrl ==> PngDataUrlPrefix + r == dataUrl
    ensures !(PngDataUrlPrefix <= dataUrl) ==> r == dataUrl
  {
    if PngDataUrlPrefix <= dataUrl then dataUrl[|PngDataUrlPrefix|..] else dataUrl
  }

  /** Exactly one prefix is removed, even when the payload itself starts with another. */
  lemma StripPrefixOnce(payload: string)
    ensures StripBase64Prefix(PngDataUrlPrefix + payload) == payload
  {
    assert (PngDataUrlPrefix + payload)[|PngDataUrlPrefix|..] == payload;
  }

  lemma StripPrefixTwice(payload: string)
    ensures StripBase64Prefix(PngDataUrlPrefix + PngDataUrlPrefix + payload) == PngDataUrlPrefix + payload
  {
    assert PngDataUrlPrefix + PngDataUrlPrefix + payload == PngDataUrlPrefix + (PngDataUrlPrefix + payload);
    StripPrefixOnce(PngDataUrlPrefix + payload);
  }

  // ---- extMap ----

  /** The language-to-extension table of the solution upload. */
  const ExtMap: map<string, string> :=
    map["java" := "java", "cpp" := "cpp", "c" := "c", "python" := "py", "javascript" := "js", "typescript" := "ts"]

  /** `extMap[language?.toLowerCase()] || "txt"`. */
  function ExtensionFor(language: Option<string>): (ext: string)
    ensures ext == "txt" || ext in ExtMap.Values
  {
    if language.None? then "txt"
    else
      var key := ToLowerCase(language.value);
      if key in ExtMap then ExtMap[key] else "txt"
  }

  /** The table is consulted case-insensitively. */
  lemma ExtensionCaseInsensitive(a: string, b: string)
    requires ToLowerCase(a) == ToLowerCase(b)
    ensures ExtensionFor(Some(a)) == ExtensionFor(Some(b))
  {
  }

  /** Every table key maps to its entry, and anything else falls back to "txt". */
  lemma ExtensionTable(language: string)
    ensures language in ExtMap ==> ExtensionFor(Some(language)) == ExtMap[language]
    ensures ToLowerCase(language) !in ExtMap ==> ExtensionFor(Some(language)) == "txt"
  {
    if language in ExtMap {
      assert ToLowerCase(language) == language;
    }
  }

  /** An extension is never empty and never holds `/` or `.`, so `solution.<ext>` stays one file name. */
  lemma ExtensionSafe(language: Option<string>)
    ensures var ext := ExtensionFor(language);
            |ext| > 0 && forall i :: 0 <= i < |ext| ==> ext[i] != '/' && ext[i] != '.'
  {
    var ext := ExtensionFor(language);
    assert ext in {"txt", "java", "cpp", "c", "py", "js", "ts"};
  }

  lemma ExtensionExamples()
    ensures ExtensionFor(Some("Java")) == "java"
    ensures ExtensionFor(Some("Python")) == "py"
    ensures ExtensionFor(Some("TypeScript")) == "ts"
    ensures ExtensionFor(Some("C++")) == "txt"
    ensures ExtensionFor(Some("Python3")) == "txt"
    ensures ExtensionFor(None) == "txt"
  {
    assert ToLowerCase("Java") == "java";
    assert ToLowerCase("Python") == "python";
    assert ToLowerCase("TypeScript") == "typescript";
    assert ToLowerCase("C++") == "c++";
    assert ToLowerCase("Python3") == "python3";
  }

  // ---- generateReadme ----

  /** `${stats.X}` of one property: its decimal value, "NaN", "null" or "undefined". */
  function Display(v: Option<Count>): string
  {
    match v
    case None => "undefined"
    case Some(Num(n)) => IntToString(n)
    case Some(NaN) => "NaN"
    case Some(Null) => "null"
  }

  const ReadmeHeader := "#" + " \U{1F4CA} LeetCode Tracker\n\nAutomatically updated via Chrome Extension.\n\n## Stats\n\n"

  /** The README template, without the blank lines that `trim` removes. */
  function ReadmeBody(easy: string, medium: string, hard: string, total: string, date: string): string
  {
    ReadmeHeader +
    ("| Difficulty | Solved |\n|----------|--------|\n" +
     "| Easy | " + easy + " |\n" +
     "| Medium | " + medium + " |\n" +
     "| Hard | " + hard + " |\n" +
     "| **Total** | **" + total + "** |\n\n" +
     "_Last updated: " + date + "_")
  }

  lemma ReadmeBodyEnds(easy: string, medium: string, hard: string, total: string, date: string)
    ensures var b := ReadmeBody(easy, medium, hard, total, date);
            |b| > 0 && b[0] == '#' && b[|b| - 1] == '_'
  {
    assert ReadmeHeader[0] == '#';
  }

  /**
   * `generateReadme(stats)` with the local date passed in: the trimmed
   * template shows exactly the four counters of the document.
   */
  function GenerateReadme(st: Stats, date: string): (r: string)
    ensures r == ReadmeBody(Display(Get(st, "Easy")), Display(Get(st, "Medium")),
                            Display(Get(st, "Hard")), Display(Get(st, "Total")), date)
  {
    var body := ReadmeBody(Display(Get(st, "Easy")), Display(Get(st, "Medium")),
                           Display(Get(st, "Hard")), Display(Get(st, "Total")), date);
    ReadmeBodyEnds(Display(Get(st, "Easy")), Display(Get(st, "Medium")),
                   Display(Get(st, "Hard")), Display(Get(st, "Total")), date);
    TrimNewlines(body);
    var template := "\n" + body + "\n";
    Trim(template)
  }

  /** The README depends on nothing but the four counters. */
  lemma ReadmeDependsOnCounts(a: Stats, b: Stats, date: string)
    requires forall k :: k in ["Easy", "Medium", "Hard", "Total"] ==> Get(a, k) == Get(b, k)
    ensures GenerateReadme(a, date) == GenerateReadme(b, date)
  {
    assert Get(a, "Easy") == Get(b, "Easy");
    assert Get(a, "Medium") == Get(b, "Medium");
    assert Get(a, "Hard") == Get(b, "Hard");
    assert Get(a, "Total") == Get(b, "Total");
  }

  lemma ReadmeOfDefault(date: string)
    ensures GenerateReadme(Default(), date) == ReadmeBody("0", "0", "0", "0", date)
  {
    DefaultKeys();
    GetFirst(Default(), 0);
    GetFirst(Default(), 1);
    GetFirst(Default(), 2);
    GetFirst(Default(), 3);
  }
}
