/**
 * The content script on a LeetCode page: the slug read from the page's
 * URL, the canonical URL built back from it, and the mutation observer
 * that sends one `LEETCODE_ACCEPTED` message per page once the
 * submission result reads "Accepted".
 *
 * What the page shows (the result node, the submitted code, the language
 * button, the question found in `__NEXT_DATA__`, the screenshot) is given
 * as a `Page` value; the scraping and the fetching are not modelled.
 */
module ContentScript {
  import opened Wrappers
  import opened JsText
  import opened Messages
  import opened Helpers
  import opened Confirm

  // ---- getSlug and getBaseUrl ----

  const ProblemsSegment := "/problems/"
  const ProblemsPrefix := "https://leetcode.com/problems/"

  /** `/\/problems\/([^/]+)/` matches at `i`: the segment, then at least one character that is not a slash. */
  predicate MatchAt(h: string, i: nat)
  {
    i + 10 < |h| && h[i..i + 10] == ProblemsSegment && h[i + 10] != '/'
  }

  /** The length of the run of non-slash characters starting at `j`: what the greedy `[^/]+` takes. */
  function RunFrom(h: string, j: nat): (n: nat)
    requires j <= |h|
    ensures j + n <= |h|
    decreases |h| - j
  {
    if j < |h| && h[j] != '/' then 1 + RunFrom(h, j + 1) else 0
  }

  /** The leftmost position at or after `i` where the pattern matches. */
  function FindFrom(h: string, i: nat): Option<nat>
    decreases |h| - i
  {
    if i + 10 >= |h| then None
    else if MatchAt(h, i) then Some(i)
    else FindFrom(h, i + 1)
  }

  /** `getSlug`: the first capture group of the leftmost match in `location.href`, or `null`. */
  function GetSlug(href: string): Option<string>
  {
    match FindFrom(href, 0)
    case None => None
    case Some(i) =>
      if i + 10 <= |href| then Some(href[i + 10 .. i + 10 + RunFrom(href, i + 10)]) else None
  }

  /** `getBaseUrl`. */
  function GetBaseUrl(slug: string): string
  {
    ProblemsPrefix + slug + "/"
  }

  // ---- what getSlug finds ----

  /** `slug` is what the pattern captures at `i`: a non-empty slash-free run ending at a slash or at the end. */
  predicate CapturedAt(h: string, i: nat, slug: string)
  {
    && MatchAt(h, i)
    && |slug| > 0 && i + 10 + |slug| <= |h| && slug == h[i + 10 .. i + 10 + |slug|]
    && (forall k :: 0 <= k < |slug| ==> slug[k] != '/')
    && (i + 10 + |slug| == |h| || h[i + 10 + |slug|] == '/')
  }

  lemma {:induction false} RunFromIsRun(h: string, j: nat)
    requires j <= |h|
    ensures var n := RunFrom(h, j);
            && (forall k :: j <= k < j + n ==> h[k] != '/')
            && (j + n == |h| || h[j + n] == '/')
    decreases |h| - j
  {
    if j < |h| && h[j] != '/' {
      RunFromIsRun(h, j + 1);
    }
  }

  /** A slash-free stretch ended by a slash or the end is exactly the run `RunFrom` measures. */
  lemma {:induction false} RunFromOfRun(h: string, j: nat, n: nat)
    requires j + n <= |h|
    requires forall k :: j <= k < j + n ==> h[k] != '/'
    requires j + n == |h| || h[j + n] == '/'
    ensures RunFrom(h, j) == n
    decreases n
  {
    if n > 0 {
      RunFromOfRun(h, j + 1, n - 1);
    }
  }

  lemma {:induction false} FindFromFound(h: string, i: nat)
    ensures var r := FindFrom(h, i);
            && (r.Some? ==> r.value >= i && MatchAt(h, r.value) && forall k :: i <= k < r.value ==> !MatchAt(h, k))
            && (r.None? ==> forall k :: k >= i ==> !MatchAt(h, k))
    decreases |h| - i
  {
    if i + 10 < |h| && !MatchAt(h, i) {
      FindFromFound(h, i + 1);
    }
  }

  lemma {:induction false} FindFromLeftmost(h: string, i: nat, m: nat)
    requires i <= m && MatchAt(h, m) && forall k :: i <= k < m ==> !MatchAt(h, k)
    ensures FindFrom(h, i) == Some(m)
    decreases m - i
  {
    if i < m {
      FindFromLeftmost(h, i + 1, m);
    }
  }

  /** `getSlug` is `null` exactly when the pattern matches nowhere in the URL. */
  lemma GetSlugNone(href: string)
    ensures GetSlug(href).None? <==> forall i :: !MatchAt(href, i)
  {
    FindFromFound(href, 0);
  }

  /** What `getSlug` returns is the capture at the leftmost match. */
  lemma GetSlugFound(href: string)
    requires GetSlug(href).Some?
    ensures exists i: nat :: CapturedAt(href, i, GetSlug(href).value) && forall k :: 0 <= k < i ==> !MatchAt(href, k)
  {
    FindFromFound(href, 0);
    var i := FindFrom(href, 0).value;
    RunFromIsRun(href, i + 10);
    var slug := GetSlug(href).value;
    assert |slug| == RunFrom(href, i + 10);
    forall k | 0 <= k < |slug| ensures slug[k] != '/' {
      assert slug[k] == href[i + 10 + k];
    }
    assert CapturedAt(href, i, slug);
  }

  /** The capture at the leftmost match is what `getSlug` returns. */
  lemma GetSlugOfCapture(href: string, i: nat, slug: string)
    requires CapturedAt(href, i, slug) && forall k :: 0 <= k < i ==> !MatchAt(href, k)
    ensures GetSlug(href) == Some(slug)
  {
    FindFromLeftmost(href, 0, i);
    forall k | i + 10 <= k < i + 10 + |slug| ensures href[k] != '/' {
      assert href[k] == slug[k - i - 10];
    }
    RunFromOfRun(href, i + 10, |slug|);
  }

  /** The canonical URL of a slug reads back as that slug: `getSlug(getBaseUrl(slug)) == slug`. */
  lemma GetSlugOfBaseUrl(slug: string)
    requires |slug| > 0 && forall k :: 0 <= k < |slug| ==> slug[k] != '/'
    ensures GetSlug(GetBaseUrl(slug)) == Some(slug)
  {
    var h := GetBaseUrl(slug);
    assert h[..30] == ProblemsPrefix;
    forall k | 0 <= k < 20 ensures !MatchAt(h, k) {
      assert h[k] == ProblemsPrefix[k] && h[k + 1] == ProblemsPrefix[k + 1];
      assert h[k..k + 10][0] == h[k] && h[k..k + 10][1] == h[k + 1];
    }
    assert h[20..30] == ProblemsSegment;
    assert h[30] == slug[0];
    assert h[30..30 + |slug|] == slug;
    assert h[30 + |slug|] == '/';
    GetSlugOfCapture(h, 20, slug);
  }

  // ---- the observer ----

  /** The `question` object found in the page's `__NEXT_DATA__`, as far as the payload uses it. */
  datatype Question = Question(title: string, difficulty: Option<string>, topics: seq<string>, content: Option<string>)

  /** What `fetchProblemMeta(slug)` returns when it finds the question. */
  datatype ProblemMeta = ProblemMeta(title: string, difficulty: Option<string>, topics: seq<string>,
                                     content: Option<string>, url: string)

  /** The page as the observer callback sees it; `None` is a missing node or a `null` result. */
  datatype Page = Page(
    status: Option<string>,
    href: string,
    question: Option<Question>,
    code: Option<string>,
    languageButton: Option<string>,
    screenshot: Option<string>)

  /** The record `fetchProblemMeta` builds from the question it found. */
  function MetaOf(q: Question, slug: string): ProblemMeta
  {
    ProblemMeta(q.title, q.difficulty, q.topics, q.content, GetBaseUrl(slug))
  }

  /** `extractLanguage`: the trimmed text of the language button, or `"unknown"`. */
  function Language(button: Option<string>): string
  {
    if button.Some? then Trim(button.value) else "unknown"
  }

  /** The payload of the message, field by field. */
  function Payload(meta: ProblemMeta, slug: string, page: Page): Problem
  {
    Problem(meta.title, slug, meta.difficulty, meta.topics, meta.url,
            meta.content, page.code, Some(Language(page.languageButton)), page.screenshot)
  }

  /**
   * One call of the observer callback: whether the page is handled
   * afterwards, and the message it sends.  The flag is set as soon as the
   * result reads "Accepted", before the slug and the question are looked
   * at, so a page whose slug or question is missing is given up for good.
   */
  function Observe(handled: bool, page: Page): (bool, Option<Message>)
  {
    if handled then (true, None)
    else if page.status.None? || Trim(page.status.value) != "Accepted" then (false, None)
    else
      match GetSlug(page.href)
      case None => (true, None)
      case Some(slug) =>
        if page.question.None? then (true, None)
        else
          var meta := MetaOf(page.question.value, slug);
          (true, Some(Message(LeetcodeAccepted, Some(Payload(meta, slug, page)))))
  }

  /** The callback over a sequence of mutations: the final flag and the messages sent, in order. */
  function ObserveAll(handled: bool, pages: seq<Page>): (bool, seq<Message>)
    decreases |pages|
  {
    if pages == [] then (handled, [])
    else
      var (h1, m) := Observe(handled, pages[0]);
      var (h2, ms) := ObserveAll(h1, pages[1..]);
      (h2, (if m.Some? then [m.value] else []) + ms)
  }

  /** Once handled, the callback returns at once and sends nothing. */
  lemma ObserveHandled(page: Page)
    ensures Observe(true, page) == (true, None)
  {
  }

  /** The flag is set exactly by a result reading "Accepted", and a message is sent only then. */
  lemma ObserveFlag(page: Page)
    ensures var (h, m) := Observe(false, page);
            && (h <==> page.status.Some? && Trim(page.status.value) == "Accepted")
            && (m.Some? ==> h)
  {
  }

  /** A message is sent exactly when the result is accepted, the URL has a slug and the question was found. */
  lemma ObserveSends(page: Page)
    ensures Observe(false, page).1.Some? <==>
              page.status.Some? && Trim(page.status.value) == "Accepted" && GetSlug(page.href).Some? && page.question.Some?
  {
  }

  /**
   * The message sent is `LEETCODE_ACCEPTED` with the slug of the URL, the
   * canonical URL of that slug, the question's HTML as `questionHtml`, the
   * code, the trimmed language and the screenshot; its URL reads back as
   * its slug.
   */
  lemma ObservePayload(handled: bool, page: Page)
    requires Observe(handled, page).1.Some?
    ensures var m := Observe(handled, page).1.value;
            && m.kind == LeetcodeAccepted && m.payload.Some?
            && var p := m.payload.value;
               var q := page.question.value;
               && GetSlug(page.href) == Some(p.slug)
               && p.title == q.title && p.difficulty == q.difficulty && p.topics == q.topics
               && p.url == GetBaseUrl(p.slug) && p.questionHtml == q.content
               && p.code == page.code && p.language == Some(Language(page.languageButton))
               && p.screenshot == page.screenshot
               && GetSlug(p.url) == Some(p.slug)
  {
    var slug := GetSlug(page.href).value;
    GetSlugFound(page.href);
    var i: nat :| CapturedAt(page.href, i, slug) && forall k :: 0 <= k < i ==> !MatchAt(page.href, k);
    GetSlugOfBaseUrl(slug);
  }

  /** At most one message per page, and none at all once the page is handled. */
  lemma {:induction false} ObserveAtMostOnce(handled: bool, pages: seq<Page>)
    ensures var (h, ms) := ObserveAll(handled, pages);
            && |ms| <= 1
            && (handled ==> ms == [] && h)
            && (|ms| == 1 ==> h && !handled)
    decreases |pages|
  {
    if pages != [] {
      var (h1, m) := Observe(handled, pages[0]);
      ObserveAtMostOnce(h1, pages[1..]);
      if m.Some? {
        assert h1;
        ObserveAllHandled(pages[1..]);
      }
    }
  }

  lemma {:induction false} ObserveAllHandled(pages: seq<Page>)
    ensures ObserveAll(true, pages) == (true, [])
    decreases |pages|
  {
    if pages != [] {
      ObserveAllHandled(pages[1..]);
      var (h1, m) := Observe(true, pages[0]);
      assert h1 && m.None?;
      var (h2, ms) := ObserveAll(h1, pages[1..]);
      assert h2 && ms == [];
      assert ObserveAll(true, pages) == (h2, [] + ms);
      assert ObserveAll(true, pages).1 == [];
    }
  }

  /** `question.html` is written by the push of a sent payload exactly when the question's HTML is truthy. */
  lemma QuestionWrittenIffContent(page: Page, clock: Clock)
    requires Observe(false, page).1.Some?
    ensures var p := Observe(false, page).1.value.payload.value;
            var base := BasePath(NormalizeDifficulty(p.difficulty), p.slug);
            FilePath(base, "question.html") in PathsOf(PushArtifacts(p, clock)) <==> Truthy(page.question.value.content)
  {
    var p := Observe(false, page).1.value.payload.value;
    var diff := NormalizeDifficulty(p.difficulty);
    var base := BasePath(diff, p.slug);
    var qp := FilePath(base, "question.html");
    ArtifactPathsPresent(p, diff, clock.isoDate);
    ArtifactPathsWithin(p, diff, clock.isoDate);
    var solution := "solution." + ExtensionFor(p.language);
    assert "question.html" != solution by {
      assert solution[0] == 's';
    }
    if qp == FilePath(base, "meta.json") {
      FilePathInjective(base, "question.html", "meta.json");
    }
    if qp == FilePath(base, solution) {
      FilePathInjective(base, "question.html", solution);
    }
    if qp == FilePath(base, "screenshot.png") {
      FilePathInjective(base, "question.html", "screenshot.png");
    }
  }

  // ---- the observer as an object ----

  /** The content script's state: the `alreadyHandled` flag, and the messages sent so far. */
  class Watcher {
    var alreadyHandled: bool
    var sent: seq<Message>

    constructor ()
      ensures !alreadyHandled && sent == []
    {
      alreadyHandled := false;
      sent := [];
    }

    /** The observer callback on one mutation of the page. */
    method OnMutation(page: Page)
      modifies this
      ensures var (h, m) := Observe(old(alreadyHandled), page);
              alreadyHandled == h && sent == old(sent) + (if m.Some? then [m.value] else [])
    {
      if alreadyHandled {
        return;
      }
      if page.status.None? {
        return;
      }
      if Trim(page.status.value) != "Accepted" {
        return;
      }
      alreadyHandled := true;
      var slug := GetSlug(page.href);
      if slug.None? {
        return;
      }
      if page.question.None? {
        return;
      }
      var meta := MetaOf(page.question.value, slug.value);
      var payload := Payload(meta, slug.value, page);
      sent := sent + [Message(LeetcodeAccepted, Some(payload))];
    }
  }
}
