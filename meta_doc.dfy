/**
 * The `meta.json` document written for every pushed problem:
 * `JSON.stringify({title, difficulty, topics, url, date}, null, 2)`,
 * and a reader for that exact layout, so that the text is shown to lose
 * nothing of the record.
 */
module MetaDoc {
  import opened Wrappers
  import opened Json

  datatype Meta = Meta(title: string, difficulty: string, topics: seq<string>, url: string, date: string)

  /**
   * The quoted topics, each on its own line at depth two, separated by
   * commas, followed by `after`.
   */
  function TopicLinesThen(ts: seq<string>, after: string): string
    requires |ts| > 0
  {
    if |ts| == 1 then "    " + (Quote(ts[0]) + after)
    else "    " + (Quote(ts[0]) + (",\n" + TopicLinesThen(ts[1..], after)))
  }

  /** An array value at depth one, followed by `after`: `[]` when empty, one element per line otherwise. */
  function TopicsThen(ts: seq<string>, after: string): string
  {
    if ts == [] then "[]" + after else "[\n" + TopicLinesThen(ts, "\n  ]" + after)
  }

  /** The five properties in insertion order, two spaces of indentation, no trailing newline. */
  function MetaText(m: Meta): string
  {
    "{\n  \"title\": " + (Quote(m.title) +
    (",\n  \"difficulty\": " + (Quote(m.difficulty) +
    (",\n  \"topics\": " + TopicsThen(m.topics,
    ",\n  \"url\": " + (Quote(m.url) +
    (",\n  \"date\": " + (Quote(m.date) + "\n}"))))))))
  }

  // ---- reading the layout back ----

  /** What follows the literal `lit` at the front of `s`. */
  function Expect(lit: string, s: string): (r: Option<string>)
    ensures r.Some? ==> lit + r.value == s
  {
    if lit <= s then Some(s[|lit|..]) else None
  }

  lemma ExpectOf(lit: string, t: string)
    ensures Expect(lit, lit + t) == Some(t)
  {
    assert (lit + t)[|lit|..] == t;
  }

  /** The topic lines of a non-empty array, up to and including its closing bracket. */
  function ParseTopicLines(s: string): Option<(seq<string>, string)>
    decreases |s|
  {
    match Expect("    ", s)
    case None => None
    case Some(s1) =>
      match ParseString(s1)
      case None => None
      case Some((t, r)) =>
        if ",\n" <= r then
          match ParseTopicLines(r[2..])
          case None => None
          case Some((ts, rest)) => Some(([t] + ts, rest))
        else if "\n  ]" <= r then Some(([t], r[4..]))
        else None
  }

  function ParseTopics(s: string): Option<(seq<string>, string)>
  {
    if "[]" <= s then Some(([], s[2..]))
    else if "[\n" <= s then ParseTopicLines(s[2..])
    else None
  }

  /** The record held by a `meta.json` text in exactly the layout `MetaText` writes. */
  function ParseMeta(s: string): Option<Meta>
  {
    match Expect("{\n  \"title\": ", s)
    case None => None
    case Some(s1) =>
    match ParseString(s1)
    case None => None
    case Some((title, r1)) =>
    match Expect(",\n  \"difficulty\": ", r1)
    case None => None
    case Some(s2) =>
    match ParseString(s2)
    case None => None
    case Some((difficulty, r2)) =>
    match Expect(",\n  \"topics\": ", r2)
    case None => None
    case Some(s3) =>
    match ParseTopics(s3)
    case None => None
    case Some((topics, r3)) =>
    match Expect(",\n  \"url\": ", r3)
    case None => None
    case Some(s4) =>
    match ParseString(s4)
    case None => None
    case Some((url, r4)) =>
    match Expect(",\n  \"date\": ", r4)
    case None => None
    case Some(s5) =>
    match ParseString(s5)
    case None => None
    case Some((date, r5)) =>
    if r5 == "\n}" then Some(Meta(title, difficulty, topics, url, date)) else None
  }

  /** The last topic line, followed by the closing bracket. */
  lemma ParseTopicLinesLast(t: string, tail: string)
    ensures ParseTopicLines("    " + (Quote(t) + ("\n  ]" + tail))) == Some(([t], tail))
  {
    var close := "\n  ]" + tail;
    ExpectOf("    ", Quote(t) + close);
    ParseQuote(t, close);
    assert close[0] == '\n';
    assert close[..4] == "\n  ]";
    assert close[4..] == tail;
  }

  /** A topic line followed by a comma: the remaining lines are read after it. */
  lemma ParseTopicLinesNext(t: string, more: string)
    ensures ParseTopicLines("    " + (Quote(t) + (",\n" + more))) ==
            match ParseTopicLines(more)
            case None => None
            case Some((ts, rest)) => Some(([t] + ts, rest))
  {
    ExpectOf("    ", Quote(t) + (",\n" + more));
    ParseQuote(t, ",\n" + more);
    assert (",\n" + more)[2..] == more;
  }

  lemma {:induction false} ParseTopicLinesOf(ts: seq<string>, tail: string)
    requires |ts| > 0
    ensures ParseTopicLines(TopicLinesThen(ts, "\n  ]" + tail)) == Some((ts, tail))
    decreases |ts|
  {
    if |ts| == 1 {
      ParseTopicLinesLast(ts[0], tail);
      assert [ts[0]] == ts;
    } else {
      ParseTopicLinesNext(ts[0], TopicLinesThen(ts[1..], "\n  ]" + tail));
      ParseTopicLinesOf(ts[1..], tail);
      assert [ts[0]] + ts[1..] == ts;
    }
  }

  lemma ParseTopicsOf(ts: seq<string>, tail: string)
    ensures ParseTopics(TopicsThen(ts, tail)) == Some((ts, tail))
  {
    if ts == [] {
      assert ("[]" + tail)[2..] == tail;
    } else {
      var lines := TopicLinesThen(ts, "\n  ]" + tail);
      assert ("[\n" + lines)[1] == '\n';
      assert ("[\n" + lines)[2..] == lines;
      ParseTopicLinesOf(ts, tail);
    }
  }

  /** `meta.json` reads back as the record it was written from: the text loses nothing. */
  lemma ParseMetaText(m: Meta)
    ensures ParseMeta(MetaText(m)) == Some(m)
  {
    var r4 := ",\n  \"date\": " + (Quote(m.date) + "\n}");
    var r3 := ",\n  \"url\": " + (Quote(m.url) + r4);
    var r2 := ",\n  \"topics\": " + TopicsThen(m.topics, r3);
    var r1 := ",\n  \"difficulty\": " + (Quote(m.difficulty) + r2);
    ExpectOf("{\n  \"title\": ", Quote(m.title) + r1);
    ParseQuote(m.title, r1);
    ExpectOf(",\n  \"difficulty\": ", Quote(m.difficulty) + r2);
    ParseQuote(m.difficulty, r2);
    ExpectOf(",\n  \"topics\": ", TopicsThen(m.topics, r3));
    ParseTopicsOf(m.topics, r3);
    ExpectOf(",\n  \"url\": ", Quote(m.url) + r4);
    ParseQuote(m.url, r4);
    ExpectOf(",\n  \"date\": ", Quote(m.date) + "\n}");
    ParseQuote(m.date, "\n}");
  }

  /** Different records give different texts. */
  lemma MetaTextInjective(a: Meta, b: Meta)
    requires MetaText(a) == MetaText(b)
    ensures a == b
  {
    ParseMetaText(a);
    ParseMetaText(b);
  }
}
