/**
 * `handleConfirmedPush`: once the user confirms, the pending problem is
 * written into the repository as `problems/<difficulty>/<slug>/…` and the
 * stats and README are updated.  The uploads the handler makes are first
 * listed as values (`Artifacts`), then run in order (`UploadAll`), which
 * is the same sequence of calls the handler's chain of `if`s makes.
 */
module Confirm {
  import opened Wrappers
  import opened JsText
  import Base64
  import opened StatsDoc
  import opened MetaDoc
  import opened Messages
  import opened Helpers
  import opened RemoteStore
  import opened Push

  /** What `getGithubToken` and `fetchAndStoreGithubUser` resolve to: `null`, `undefined` or a string. */
  datatype Identity = Identity(token: Option<string>, username: Option<string>)

  /** "Now": the `YYYY-MM-DD` date of `meta.json` and the locale string shown in the README. */
  datatype Clock = Clock(isoDate: string, localeDate: string)

  /** How a confirmed push ends: an early `return`, the last line reached, or an exception caught. */
  datatype PushOutcome = Skipped | Completed | Aborted(failure: Failure)

  /** One `uploadFile` call of the handler. */
  datatype Upload = Upload(path: string, content: string, isBinary: bool)

  function PathsOf(ups: seq<Upload>): (ps: seq<string>)
    ensures |ps| == |ups| && forall i :: 0 <= i < |ups| ==> ps[i] == ups[i].path
  {
    if ups == [] then [] else [ups[0].path] + PathsOf(ups[1..])
  }

  predicate Distinct(ps: seq<string>)
  {
    forall i, j :: 0 <= i < j < |ps| ==> ps[i] != ps[j]
  }

  /** The uploads in the order given, each a read then a write. */
  function UploadAll(s: Store, ups: seq<Upload>): Store
    decreases |ups|
  {
    if ups == [] then s else UploadAll(UploadFile(s, ups[0].path, ups[0].content, ups[0].isBinary), ups[1..])
  }

  // ---- running a list of uploads ----

  /** A list of uploads makes two calls each and never creates or drops the repository. */
  lemma {:induction false} UploadAllShape(s: Store, ups: seq<Upload>)
    ensures var s' := UploadAll(s, ups);
            && s'.repoExists == s.repoExists && s'.faults == s.faults
            && |s'.log| == |s.log| + 2 * |ups|
    decreases |ups|
  {
    if ups != [] {
      var s1 := UploadFile(s, ups[0].path, ups[0].content, ups[0].isBinary);
      UploadFileLog(s, ups[0].path, ups[0].content, ups[0].isBinary);
      UploadAllShape(s1, ups[1..]);
    }
  }

  lemma PrefixStep(p0: seq<string>, p1: seq<string>, p2: seq<string>, x: string, rest: seq<string>)
    requires p1 == p0 + [x] && p2 == p1 + rest
    ensures p2 == p0 + ([x] + rest)
  {
  }

  /** A list of uploads writes its paths in order, and creates nothing. */
  lemma {:induction false} UploadAllLog(s: Store, ups: seq<Upload>)
    ensures var s' := UploadAll(s, ups);
            Puts(s'.log) == Puts(s.log) + PathsOf(ups) && Creations(s'.log) == Creations(s.log)
    decreases |ups|
  {
    if ups != [] {
      var s1 := UploadFile(s, ups[0].path, ups[0].content, ups[0].isBinary);
      UploadFileLog(s, ups[0].path, ups[0].content, ups[0].isBinary);
      UploadAllLog(s1, ups[1..]);
      assert UploadAll(s, ups) == UploadAll(s1, ups[1..]);
      PrefixStep(Puts(s.log), Puts(s1.log), Puts(UploadAll(s, ups).log), ups[0].path, PathsOf(ups[1..]));
    }
  }

  /** A path none of the uploads names keeps its file, or its absence. */
  lemma {:induction false} UploadAllFrame(s: Store, ups: seq<Upload>, q: string)
    requires q !in PathsOf(ups)
    ensures var s' := UploadAll(s, ups);
            && (q in s'.files <==> q in s.files)
            && (q in s.files ==> s'.files[q] == s.files[q])
    decreases |ups|
  {
    if ups != [] {
      var s1 := UploadFile(s, ups[0].path, ups[0].content, ups[0].isBinary);
      UploadFileFrame(s, ups[0].path, ups[0].content, ups[0].isBinary);
      assert ups[0].path == PathsOf(ups)[0];
      assert PathsOf(ups[1..]) == PathsOf(ups)[1..];
      UploadAllFrame(s1, ups[1..], q);
    }
  }

  lemma UploadFileAbsent(s: Store, path: string, content: string, isBinary: bool)
    requires !s.repoExists
    ensures var s' := UploadFile(s, path, content, isBinary);
            s'.files == s.files && s'.nextSha == s.nextSha && !s'.repoExists
  {
  }

  /** Into a repository that does not exist nothing is written. */
  lemma {:induction false} UploadAllAbsent(s: Store, ups: seq<Upload>)
    requires !s.repoExists
    ensures UploadAll(s, ups).files == s.files && UploadAll(s, ups).nextSha == s.nextSha
    decreases |ups|
  {
    if ups != [] {
      var s1 := UploadFile(s, ups[0].path, ups[0].content, ups[0].isBinary);
      UploadFileAbsent(s, ups[0].path, ups[0].content, ups[0].isBinary);
      UploadAllAbsent(s1, ups[1..]);
    }
  }

  /** The content each upload sends is acceptable as base64: text is encoded, binary must already be. */
  predicate Encodable(ups: seq<Upload>)
  {
    forall i :: 0 <= i < |ups| && ups[i].isBinary ==> Base64.Decode(ups[i].content).Some?
  }

  /** The upload's file holds what was sent, under `sha`. */
  predicate Holds(files: map<string, RemoteFile>, u: Upload, sha: nat)
  {
    u.path in files && files[u.path] == RemoteFile(UploadBody(u.content, u.isBinary), sha)
  }

  /** Each upload's file holds what was sent, under consecutive shas from `sha` on. */
  predicate Stored(files: map<string, RemoteFile>, ups: seq<Upload>, sha: nat)
  {
    forall i :: 0 <= i < |ups| ==> Holds(files, ups[i], sha + i)
  }

  lemma {:induction false} StoredCons(files: map<string, RemoteFile>, u: Upload, rest: seq<Upload>, sha: nat)
    requires Holds(files, u, sha)
    requires Stored(files, rest, sha + 1)
    ensures Stored(files, [u] + rest, sha)
  {
    var xs := [u] + rest;
    forall i | 0 <= i < |xs|
      ensures Holds(files, xs[i], sha + i)
    {
      if i > 0 {
        assert xs[i] == rest[i - 1];
        assert Holds(files, rest[i - 1], sha + 1 + (i - 1));
      }
    }
  }

  /** The first of distinct uploads is not among the rest, and the rest are distinct and encodable. */
  lemma {:induction false} HeadApart(ups: seq<Upload>)
    requires |ups| > 0 && Distinct(PathsOf(ups)) && Encodable(ups)
    ensures ups[0].path !in PathsOf(ups[1..]) && Distinct(PathsOf(ups[1..])) && Encodable(ups[1..])
  {
    var ps := PathsOf(ups);
    assert PathsOf(ups[1..]) == ps[1..];
    assert ps[0] == ups[0].path;
    assert ps[0] !in ps[1..] by {
      forall j | 1 <= j < |ps| ensures ps[j] != ps[0] {
      }
    }
    var tail := ps[1..];
    forall i, j | 0 <= i < j < |tail| ensures tail[i] != tail[j] {
      assert tail[i] == ps[i + 1] && tail[j] == ps[j + 1];
    }
    assert Distinct(tail);
  }

  /**
   * Into a reachable repository with no failing call, distinct uploads
   * each leave their file holding their content, under consecutive shas.
   */
  /** The first upload's file survives the rest when no later upload has its path. */
  lemma UploadHeadHolds(s: Store, u: Upload, rest: seq<Upload>)
    requires s.repoExists && Reliable(s, 2) && (u.isBinary ==> Base64.Decode(u.content).Some?) && u.path !in PathsOf(rest)
    ensures Holds(UploadAll(UploadFile(s, u.path, u.content, u.isBinary), rest).files, u, s.nextSha)
  {
    var s1 := UploadFile(s, u.path, u.content, u.isBinary);
    UploadFileStores(s, u.path, u.content, u.isBinary);
    UploadAllFrame(s1, rest, u.path);
  }

  lemma {:induction false} UploadAllStores(s: Store, ups: seq<Upload>)
    requires s.repoExists && Reliable(s, 2 * |ups|) && Distinct(PathsOf(ups)) && Encodable(ups)
    ensures var s' := UploadAll(s, ups);
            s'.nextSha == s.nextSha + |ups| && Stored(s'.files, ups, s.nextSha)
    decreases |ups|
  {
    if ups != [] {
      var u := ups[0];
      var rest := ups[1..];
      var s1 := UploadFile(s, u.path, u.content, u.isBinary);
      assert UploadAll(s, ups) == UploadAll(s1, rest);
      UploadFileCalls(s, u.path, u.content, u.isBinary);
      UploadFileFrame(s, u.path, u.content, u.isBinary);
      UploadFileStores(s, u.path, u.content, u.isBinary);
      ReliableLater(s, s1, 2, 2 * |rest|);
      HeadApart(ups);
      UploadAllStores(s1, rest);
      UploadHeadHolds(s, u, rest);
      StoredCons(UploadAll(s1, rest).files, u, rest, s.nextSha);
      assert [u] + rest == ups;
    }
  }

  // ---- the uploads of one push ----

  /** `[x]` when `c` holds, `[]` otherwise. */
  function Present<T>(c: bool, x: T): seq<T>
  {
    if c then [x] else []
  }

  /** A first element followed by three optional ones: what it holds, and that it repeats nothing when they differ. */
  lemma PresentFour<T>(a: T, c1: bool, b: T, c2: bool, c: T, c3: bool, d: T)
    ensures var xs := [a] + Present(c1, b) + Present(c2, c) + Present(c3, d);
            && xs[0] == a
            && (forall x :: x in xs <==> x == a || (c1 && x == b) || (c2 && x == c) || (c3 && x == d))
            && (a != b && a != c && a != d && b != c && b != d && c != d ==>
                  forall i, j :: 0 <= i < j < |xs| ==> xs[i] != xs[j])
  {
  }

  /** The string an optional field holds, or `""`. */
  function TextOf(o: Option<string>): string
  {
    if o.Some? then o.value else ""
  }

  /** A file of one push: its name in the problem's folder, its content, whether that is already base64. */
  datatype Artifact = Artifact(name: string, content: string, isBinary: bool)

  /** `meta.json`, then `question.html`, `solution.<ext>` and `screenshot.png` when their fields are truthy. */
  function ArtifactList(p: Problem, diff: string, isoDate: string): seq<Artifact>
  {
    [MetaFile(p, diff, isoDate)]
    + Present(Truthy(p.questionHtml), QuestionFile(p))
    + Present(Truthy(p.code), SolutionFile(p))
    + Present(Truthy(p.screenshot), ScreenshotFile(p))
  }

  /** `problems/${diff}/${slug}`. */
  function BasePath(diff: string, slug: string): string
  {
    "problems/" + diff + "/" + slug
  }

  function FilePath(base: string, name: string): string
  {
    base + "/" + name
  }

  /** Files placed in the folder `base`, in the order given. */
  function InFolder(base: string, fs: seq<Artifact>): (ups: seq<Upload>)
    ensures |ups| == |fs| && forall i :: 0 <= i < |fs| ==>
              ups[i] == Upload(FilePath(base, fs[i].name), fs[i].content, fs[i].isBinary)
  {
    seq(|fs|, i requires 0 <= i < |fs| => Upload(FilePath(base, fs[i].name), fs[i].content, fs[i].isBinary))
  }

  /** The uploads of one push, in the handler's order. */
  function Artifacts(p: Problem, diff: string, isoDate: string): seq<Upload>
  {
    InFolder(BasePath(diff, p.slug), ArtifactList(p, diff, isoDate))
  }

  predicate NamesDistinct(fs: seq<Artifact>)
  {
    forall i, j :: 0 <= i < j < |fs| ==> fs[i].name != fs[j].name
  }

  lemma AppendCancel(base: string, x: string, y: string)
    requires base + x == base + y
    ensures x == y
  {
    assert (base + x)[|base|..] == x;
    assert (base + y)[|base|..] == y;
  }

  /** In one folder, files of different names have different paths. */
  lemma FilePathInjective(base: string, n1: string, n2: string)
    requires FilePath(base, n1) == FilePath(base, n2)
    ensures n1 == n2
  {
    AppendCancel(base + "/", n1, n2);
  }

  /** Under `problems/`, no path is the stats file or the README. */
  lemma FilePathNotTop(diff: string, slug: string, name: string)
    ensures FilePath(BasePath(diff, slug), name) != StatsPath && FilePath(BasePath(diff, slug), name) != ReadmePath
  {
    assert FilePath(BasePath(diff, slug), name)[0] == 'p';
  }

  /** Files of distinct names give distinct paths, and each file's path is among them. */
  lemma InFolderPaths(base: string, fs: seq<Artifact>)
    requires NamesDistinct(fs)
    ensures var ps := PathsOf(InFolder(base, fs));
            && Distinct(ps)
            && (forall i :: 0 <= i < |fs| ==> ps[i] == FilePath(base, fs[i].name))
            && (forall x :: x in fs ==> FilePath(base, x.name) in ps)
  {
    var ps := PathsOf(InFolder(base, fs));
    forall i, j | 0 <= i < j < |ps| ensures ps[i] != ps[j] {
      if ps[i] == ps[j] {
        FilePathInjective(base, fs[i].name, fs[j].name);
      }
    }
    forall x | x in fs ensures FilePath(base, x.name) in ps {
      var i :| 0 <= i < |fs| && fs[i] == x;
      assert ps[i] == FilePath(base, x.name);
    }
  }

  /** The four files a push may write; `ArtifactList` keeps the ones whose fields are truthy. */
  function MetaFile(p: Problem, diff: string, isoDate: string): Artifact
  {
    Artifact("meta.json", MetaText(Meta(p.title, diff, p.topics, p.url, isoDate)), false)
  }

  function QuestionFile(p: Problem): Artifact
  {
    Artifact("question.html", TextOf(p.questionHtml), false)
  }

  function SolutionFile(p: Problem): Artifact
  {
    Artifact("solution." + ExtensionFor(p.language), TextOf(p.code), false)
  }

  function ScreenshotFile(p: Problem): Artifact
  {
    Artifact("screenshot.png", StripBase64Prefix(TextOf(p.screenshot)), true)
  }

  /** The files of one push: `meta.json` first, and each optional one exactly when its field is truthy. */
  lemma ArtifactMembers(p: Problem, diff: string, isoDate: string)
    ensures var fs := ArtifactList(p, diff, isoDate);
            && fs[0] == MetaFile(p, diff, isoDate)
            && forall x :: x in fs <==>
                 || x == MetaFile(p, diff, isoDate)
                 || (Truthy(p.questionHtml) && x == QuestionFile(p))
                 || (Truthy(p.code) && x == SolutionFile(p))
                 || (Truthy(p.screenshot) && x == ScreenshotFile(p))
  {
    PresentFour(MetaFile(p, diff, isoDate), Truthy(p.questionHtml), QuestionFile(p), Truthy(p.code), SolutionFile(p),
                Truthy(p.screenshot), ScreenshotFile(p));
  }

  /** No two files of a push share a name. */
  lemma ArtifactNamesDistinct(p: Problem, diff: string, isoDate: string)
    ensures NamesDistinct(ArtifactList(p, diff, isoDate))
  {
    var fs := ArtifactList(p, diff, isoDate);
    var sol := SolutionFile(p).name;
    assert sol[0] == 's' && sol[1] == 'o';
    ArtifactMembers(p, diff, isoDate);
    forall i, j | 0 <= i < j < |fs| ensures fs[i].name != fs[j].name {
      assert fs[i] in fs && fs[j] in fs;
      PresentFour(MetaFile(p, diff, isoDate), Truthy(p.questionHtml), QuestionFile(p), Truthy(p.code), SolutionFile(p),
                  Truthy(p.screenshot), ScreenshotFile(p));
    }
  }

  /** No path is written twice in one push, and the stats file and README are not among its paths. */
  lemma ArtifactPathsDistinct(p: Problem, diff: string, isoDate: string)
    ensures var ps := PathsOf(Artifacts(p, diff, isoDate));
            Distinct(ps) && StatsPath !in ps && ReadmePath !in ps
  {
    var fs := ArtifactList(p, diff, isoDate);
    ArtifactNamesDistinct(p, diff, isoDate);
    InFolderPaths(BasePath(diff, p.slug), fs);
    var ps := PathsOf(Artifacts(p, diff, isoDate));
    forall i | 0 <= i < |ps| ensures ps[i] != StatsPath && ps[i] != ReadmePath {
      FilePathNotTop(diff, p.slug, fs[i].name);
    }
  }

  /** Each file of a push whose field is truthy is written, `meta.json` first. */
  lemma ArtifactPathsPresent(p: Problem, diff: string, isoDate: string)
    ensures var arts := Artifacts(p, diff, isoDate);
            var base := BasePath(diff, p.slug);
            var ps := PathsOf(arts);
            && arts[0] == Upload(FilePath(base, "meta.json"), MetaText(Meta(p.title, diff, p.topics, p.url, isoDate)), false)
            && (Truthy(p.questionHtml) ==> FilePath(base, "question.html") in ps)
            && (Truthy(p.code) ==> FilePath(base, "solution." + ExtensionFor(p.language)) in ps)
            && (Truthy(p.screenshot) ==> FilePath(base, "screenshot.png") in ps)
  {
    var fs := ArtifactList(p, diff, isoDate);
    ArtifactMembers(p, diff, isoDate);
    ArtifactNamesDistinct(p, diff, isoDate);
    InFolderPaths(BasePath(diff, p.slug), fs);
    assert QuestionFile(p).name == "question.html";
    assert ScreenshotFile(p).name == "screenshot.png";
  }

  /** Each element of a first element followed by three optional ones is one of them. */
  lemma PresentFourAt<T>(a: T, c1: bool, b: T, c2: bool, c: T, c3: bool, d: T, i: nat)
    requires i < |[a] + Present(c1, b) + Present(c2, c) + Present(c3, d)|
    ensures var x := ([a] + Present(c1, b) + Present(c2, c) + Present(c3, d))[i];
            x == a || (c1 && x == b) || (c2 && x == c) || (c3 && x == d)
  {
    PresentFour(a, c1, b, c2, c, c3, d);
    var xs := [a] + Present(c1, b) + Present(c2, c) + Present(c3, d);
    assert xs[i] in xs;
  }

  /** The paths of a folder holding a first file and three optional ones. */
  lemma FolderPathsWithin(base: string, a: Artifact, c1: bool, b: Artifact, c2: bool, c: Artifact, c3: bool, d: Artifact)
    ensures forall path :: path in PathsOf(InFolder(base, [a] + Present(c1, b) + Present(c2, c) + Present(c3, d))) ==>
              || path == FilePath(base, a.name)
              || (c1 && path == FilePath(base, b.name))
              || (c2 && path == FilePath(base, c.name))
              || (c3 && path == FilePath(base, d.name))
  {
    var fs := [a] + Present(c1, b) + Present(c2, c) + Present(c3, d);
    var ps := PathsOf(InFolder(base, fs));
    forall path | path in ps
      ensures || path == FilePath(base, a.name)
              || (c1 && path == FilePath(base, b.name))
              || (c2 && path == FilePath(base, c.name))
              || (c3 && path == FilePath(base, d.name))
    {
      var i :| 0 <= i < |ps| && ps[i] == path;
      PresentFourAt(a, c1, b, c2, c, c3, d, i);
      assert path == FilePath(base, fs[i].name);
    }
  }

  /** A push writes no file but those four, and an optional one only when its field is truthy. */
  lemma ArtifactPathsWithin(p: Problem, diff: string, isoDate: string)
    ensures var base := BasePath(diff, p.slug);
            forall path :: path in PathsOf(Artifacts(p, diff, isoDate)) ==>
              || path == FilePath(base, "meta.json")
              || (Truthy(p.questionHtml) && path == FilePath(base, "question.html"))
              || (Truthy(p.code) && path == FilePath(base, "solution." + ExtensionFor(p.language)))
              || (Truthy(p.screenshot) && path == FilePath(base, "screenshot.png"))
  {
    FolderPathsWithin(BasePath(diff, p.slug), MetaFile(p, diff, isoDate), Truthy(p.questionHtml), QuestionFile(p),
                      Truthy(p.code), SolutionFile(p), Truthy(p.screenshot), ScreenshotFile(p));
  }

  /** The screenshot, when there is one, is base64 once its data-URL prefix is removed. */
  predicate ScreenshotIsBase64(p: Problem)
  {
    Truthy(p.screenshot) ==> Base64.Decode(StripBase64Prefix(p.screenshot.value)).Some?
  }

  /** Only the screenshot is sent as it is. */
  lemma ArtifactsEncodable(p: Problem, diff: string, isoDate: string)
    requires ScreenshotIsBase64(p)
    ensures Encodable(Artifacts(p, diff, isoDate))
  {
    var fs := ArtifactList(p, diff, isoDate);
    var arts := Artifacts(p, diff, isoDate);
    ArtifactMembers(p, diff, isoDate);
    forall i | 0 <= i < |arts| && arts[i].isBinary ensures Base64.Decode(arts[i].content).Some? {
      assert fs[i] in fs;
    }
  }

  // ---- a push of given uploads ----

  /** A stats file that cannot be read is never a repository failure. */
  lemma UnreadableFailure(s: Store, path: string)
    ensures GetFileJson(s, path).1.Unreadable? ==> GetFileJson(s, path).1.failure != RepoCreationFailed
  {
  }

  /** The uploads of a push leave the stats file alone, so the update reads what was there before. */
  lemma UploadsKeepStats(s1: Store, ups: seq<Upload>, diff: string)
    requires s1.repoExists && Reliable(s1, 2 * |ups| + 1) && StatsPath !in PathsOf(ups)
    ensures var s2 := UploadAll(s1, ups);
            && GetFileJson(s2, StatsPath).1 == GetFileJson(s1, StatsPath).1
            && BumpedStats(s2, diff) == BumpedStats(s1, diff)
  {
    var s2 := UploadAll(s1, ups);
    UploadAllShape(s1, ups);
    UploadAllFrame(s1, ups, StatsPath);
    GetFileJsonSameFile(s1, s2, StatsPath);
  }

  /** The preconditions shared by the lemmas about a push into a reachable repository. */
  predicate ReadyForUploads(s1: Store, ups: seq<Upload>)
  {
    && s1.repoExists && Reliable(s1, 2 * |ups| + 5)
    && Distinct(PathsOf(ups)) && Encodable(ups) && StatsPath !in PathsOf(ups) && ReadmePath !in PathsOf(ups)
    && !GetFileJson(s1, StatsPath).1.Unreadable?
  }

  /** The stats file holds `stats`, under `sha`, and the README shows them, under the next sha. */
  predicate Tallied(files: map<string, RemoteFile>, stats: Stats, date: string, sha: nat)
  {
    && StatsPath in files && ReadmePath in files
    && files[StatsPath] == RemoteFile(Base64EncodeUnicode(Stringify(stats)), sha)
    && files[ReadmePath] == RemoteFile(Base64EncodeUnicode(GenerateReadme(stats, date)), sha + 1)
  }

  /** After the uploads and the stats update every uploaded file holds what was sent, in order of shas. */
  lemma UploadsThenStatsFiles(s1: Store, ups: seq<Upload>, diff: string, date: string)
    requires ReadyForUploads(s1, ups)
    ensures var s3 := UpdateStats(UploadAll(s1, ups), diff, date).0;
            Stored(s3.files, ups, s1.nextSha)
  {
    var s2 := UploadAll(s1, ups);
    UploadAllShape(s1, ups);
    UploadAllStores(s1, ups);
    UploadsKeepStats(s1, ups, diff);
    ReliableLater(s1, s2, 2 * |ups|, 5);
    UpdateStatsWrites(s2, diff, date);
    forall i | 0 <= i < |ups| ensures ups[i].path != StatsPath && ups[i].path != ReadmePath {
      assert PathsOf(ups)[i] == ups[i].path;
    }
  }

  /** After the uploads the update completes, with the bumped stats and their README under the next two shas. */
  lemma UploadsThenStatsCounters(s1: Store, ups: seq<Upload>, diff: string, date: string)
    requires ReadyForUploads(s1, ups)
    ensures var r := UpdateStats(UploadAll(s1, ups), diff, date);
            r.1 == Done && Tallied(r.0.files, BumpedStats(s1, diff), date, s1.nextSha + |ups|)
  {
    var s2 := UploadAll(s1, ups);
    UploadAllShape(s1, ups);
    UploadAllStores(s1, ups);
    UploadsKeepStats(s1, ups, diff);
    ReliableLater(s1, s2, 2 * |ups|, 5);
    UpdateStatsWrites(s2, diff, date);
  }

  /** Any other path keeps its file, or its absence, whatever the calls answer. */
  lemma UploadsThenStatsFrame(s1: Store, ups: seq<Upload>, diff: string, date: string, q: string)
    requires q != StatsPath && q != ReadmePath && q !in PathsOf(ups)
    ensures var s3 := UpdateStats(UploadAll(s1, ups), diff, date).0;
            (q in s3.files <==> q in s1.files) && (q in s1.files ==> s3.files[q] == s1.files[q])
  {
    UploadAllFrame(s1, ups, q);
    UpdateStatsFrame(UploadAll(s1, ups), diff, date, q);
  }

  /**
   * The body of `handleConfirmedPush` past its early returns: make sure
   * the repository exists, upload the files, update the stats.  An
   * exception ends it where it is thrown.
   */
  function RunPush(s: Store, ups: seq<Upload>, diff: string, date: string): (Store, PushOutcome)
  {
    var (s1, repo) := EnsureRepo(s, date);
    if repo.Threw? then (s1, Aborted(repo.failure))
    else
      var (s3, stats) := UpdateStats(UploadAll(s1, ups), diff, date);
      (s3, if stats.Threw? then Aborted(stats.failure) else Completed)
  }

  /**
   * The writes of a push, in order: the seeding of a new repository, the
   * uploads, then the stats and the README.  Only a failed create stops it
   * before the uploads; a stats file that cannot be read stops it after them.
   */
  lemma RunPushPuts(s: Store, ups: seq<Upload>, diff: string, date: string)
    ensures var (s', out) := RunPush(s, ups, diff, date);
            var seeds := if LooksPresent(s) then [] else [ReadmePath, StatsPath];
            && out != Skipped
            && (out == Aborted(RepoCreationFailed) <==> !LooksPresent(s) && |s.log| + 1 in s.faults)
            && (out == Aborted(RepoCreationFailed) ==> Puts(s'.log) == Puts(s.log) && s'.files == s.files)
            && (out != Aborted(RepoCreationFailed) ==>
                  Puts(s'.log) == Puts(s.log) + seeds + PathsOf(ups) + (if out == Completed then [StatsPath, ReadmePath] else []))
            && Creations(s'.log) == Creations(s.log) + (if LooksPresent(s) || out == Aborted(RepoCreationFailed) then 0 else 1)
  {
    var (s1, repo) := EnsureRepo(s, date);
    EnsureRepoPuts(s, date);
    if !LooksPresent(s) && |s.log| + 1 in s.faults {
      EnsureRepoCreateFails(s, date);
    } else {
      var s2 := UploadAll(s1, ups);
      UploadAllLog(s1, ups);
      UpdateStatsEffect(s2, diff, date);
      UnreadableFailure(s2, StatsPath);
    }
  }

  /** A push touches no file but its uploads, the stats file and the README. */
  lemma RunPushFrame(s: Store, ups: seq<Upload>, diff: string, date: string, q: string)
    requires Valid(s) && q != StatsPath && q != ReadmePath && q !in PathsOf(ups)
    ensures var s' := RunPush(s, ups, diff, date).0;
            (q in s'.files <==> q in s.files) && (q in s.files ==> s'.files[q] == s.files[q])
  {
    EnsureRepoFrame(s, date, q);
    UploadsThenStatsFrame(EnsureRepo(s, date).0, ups, diff, date, q);
  }

  /** Past a repository check that did not throw, a push is the uploads and then the stats update. */
  lemma RunPushSteps(s: Store, ups: seq<Upload>, diff: string, date: string)
    requires EnsureRepo(s, date).1 == Done
    ensures var r := UpdateStats(UploadAll(EnsureRepo(s, date).0, ups), diff, date);
            RunPush(s, ups, diff, date) == (r.0, if r.1.Threw? then Aborted(r.1.failure) else Completed)
  {
  }

  /** On an existing repository the check is one lookup, and the stats read the same before and after it. */
  lemma ExistingChecked(s: Store, date: string, diff: string)
    requires s.repoExists && Reliable(s, 2)
    ensures var s1 := EnsureRepo(s, date).0;
            && EnsureRepo(s, date).1 == Done && s1.repoExists && s1.files == s.files && s1.nextSha == s.nextSha
            && Reliable(s1, 1) && |s1.log| == |s.log| + 1 && s1.faults == s.faults
            && GetFileJson(s1, StatsPath).1 == GetFileJson(s, StatsPath).1
            && BumpedStats(s1, diff) == BumpedStats(s, diff)
  {
    var s1 := EnsureRepo(s, date).0;
    EnsureRepoPresent(s, date);
    EnsureRepoCalls(s, date);
    ReliableLater(s, s1, 1, 1);
    GetFileJsonSameFile(s, s1, StatsPath);
  }

  /** An existing repository, after its check, is ready for the uploads. */
  lemma ExistingReady(s: Store, ups: seq<Upload>, date: string, diff: string)
    requires s.repoExists && Reliable(s, 2 * |ups| + 6)
    requires Distinct(PathsOf(ups)) && Encodable(ups) && StatsPath !in PathsOf(ups) && ReadmePath !in PathsOf(ups)
    requires !GetFileJson(s, StatsPath).1.Unreadable?
    ensures var s1 := EnsureRepo(s, date).0;
            && EnsureRepo(s, date).1 == Done && ReadyForUploads(s1, ups)
            && s1.nextSha == s.nextSha && BumpedStats(s1, diff) == BumpedStats(s, diff)
  {
    var s1 := EnsureRepo(s, date).0;
    ExistingChecked(s, date, diff);
    ReliableLater(s, s1, 1, 2 * |ups| + 5);
  }

  lemma TalliedSame(files: map<string, RemoteFile>, a: Stats, b: Stats, date: string, m: nat, n: nat)
    requires a == b && m == n && Tallied(files, a, date, m)
    ensures Tallied(files, b, date, n)
  {
  }

  /** Past a repository check that did not throw, into a repository ready for the uploads, a push completes. */
  lemma RunPushChecked(s: Store, ups: seq<Upload>, diff: string, date: string)
    requires EnsureRepo(s, date).1 == Done && ReadyForUploads(EnsureRepo(s, date).0, ups)
    ensures var s1 := EnsureRepo(s, date).0;
            var r := RunPush(s, ups, diff, date);
            && r.1 == Completed && r.0.repoExists && Stored(r.0.files, ups, s1.nextSha)
            && Tallied(r.0.files, BumpedStats(s1, diff), date, s1.nextSha + |ups|)
  {
    var s1 := EnsureRepo(s, date).0;
    var s2 := UploadAll(s1, ups);
    var u := UpdateStats(s2, diff, date);
    RunPushSteps(s, ups, diff, date);
    UploadsThenStatsFiles(s1, ups, diff, date);
    UploadsThenStatsCounters(s1, ups, diff, date);
    UploadAllShape(s1, ups);
    UpdateStatsEffect(s2, diff, date);
  }

  /**
   * Into an existing repository with no failing call and a readable (or
   * missing) stats file, a push completes: each upload's file holds what
   * was sent, the stats are bumped once, the README shows them.
   */
  lemma RunPushExisting(s: Store, ups: seq<Upload>, diff: string, date: string)
    requires s.repoExists && Reliable(s, 2 * |ups| + 6)
    requires Distinct(PathsOf(ups)) && Encodable(ups) && StatsPath !in PathsOf(ups) && ReadmePath !in PathsOf(ups)
    requires !GetFileJson(s, StatsPath).1.Unreadable?
    ensures var r := RunPush(s, ups, diff, date);
            r.1 == Completed && Stored(r.0.files, ups, s.nextSha) && Tallied(r.0.files, BumpedStats(s, diff), date, s.nextSha + |ups|)
  {
    var s1 := EnsureRepo(s, date).0;
    ExistingReady(s, ups, date, diff);
    RunPushChecked(s, ups, diff, date);
    var files := RunPush(s, ups, diff, date).0.files;
    TalliedSame(files, BumpedStats(s1, diff), BumpedStats(s, diff), date, s1.nextSha + |ups|, s.nextSha + |ups|);
  }

  /** The stats file a new repository is seeded with reads back as `DEFAULT_STATS`. */
  lemma SeededStats(s: Store, date: string)
    requires !LooksPresent(s) && Reliable(s, 7)
    ensures var s1 := EnsureRepo(s, date).0;
            && EnsureRepo(s, date).1 == Done && s1.repoExists && s1.nextSha == s.nextSha + 2
            && GetFileJson(s1, StatsPath).1 == Parsed(Default())
  {
    var s1 := EnsureRepo(s, date).0;
    EnsureRepoSeeds(s, date);
    EnsureRepoCalls(s, date);
    ReliableLater(s, s1, 6, 1);
    DefaultKeys();
    GetFileJsonRoundTrip(s1, StatsPath, Default());
    DefaultAllNum("Total");
    CanonAllNum(Default());
  }

  /** A new repository, once created and seeded, is ready for the uploads, and its stats bump from `DEFAULT_STATS`. */
  lemma FirstReady(s: Store, ups: seq<Upload>, date: string, diff: string)
    requires !s.repoExists && Reliable(s, 2 * |ups| + 11)
    requires Distinct(PathsOf(ups)) && Encodable(ups) && StatsPath !in PathsOf(ups) && ReadmePath !in PathsOf(ups)
    ensures var s1 := EnsureRepo(s, date).0;
            && EnsureRepo(s, date).1 == Done && ReadyForUploads(s1, ups)
            && s1.nextSha == s.nextSha + 2 && BumpedStats(s1, diff) == Bump(Default(), diff)
  {
    var s1 := EnsureRepo(s, date).0;
    SeededStats(s, date);
    EnsureRepoCalls(s, date);
    ReliableLater(s, s1, 6, 2 * |ups| + 5);
    var got := GetFileJson(s1, StatsPath).1;
    assert got == Parsed(Default());
    assert BumpedStats(s1, diff) == Bump(StartingStats(got), diff);
  }

  /**
   * The first push, into a repository that does not exist yet, with no
   * failing call: the repository is created and seeded, the uploads are
   * stored after the two seeds, and the stats count this one problem.
   */
  lemma RunPushFirst(s: Store, ups: seq<Upload>, diff: string, date: string)
    requires !s.repoExists && Reliable(s, 2 * |ups| + 11)
    requires Distinct(PathsOf(ups)) && Encodable(ups) && StatsPath !in PathsOf(ups) && ReadmePath !in PathsOf(ups)
    ensures var r := RunPush(s, ups, diff, date);
            && r.1 == Completed && r.0.repoExists
            && Stored(r.0.files, ups, s.nextSha + 2) && Tallied(r.0.files, Bump(Default(), diff), date, s.nextSha + 2 + |ups|)
  {
    var s1 := EnsureRepo(s, date).0;
    FirstReady(s, ups, date, diff);
    RunPushChecked(s, ups, diff, date);
    var files := RunPush(s, ups, diff, date).0.files;
    TalliedSame(files, BumpedStats(s1, diff), Bump(Default(), diff), date, s1.nextSha + |ups|, s.nextSha + 2 + |ups|);
  }

  /**
   * A lookup that fails with a server error on a repository that does not
   * exist counts as "exists": nothing is created or stored, every write
   * fails unnoticed, and the push still completes.
   */
  lemma RunPushLookupFault(s: Store, ups: seq<Upload>, diff: string, date: string)
    requires !s.repoExists && NextFails(s)
    ensures var r := RunPush(s, ups, diff, date);
            r.1 == Completed && !r.0.repoExists && r.0.files == s.files
  {
    var s1 := EnsureRepo(s, date).0;
    EnsureRepoPresent(s, date);
    var s2 := UploadAll(s1, ups);
    UploadAllShape(s1, ups);
    UploadAllAbsent(s1, ups);
    GetFileJsonEffect(s2, StatsPath);
    UpdateStatsEffect(s2, diff, date);
    var (s3, got) := GetFileJson(s2, StatsPath);
    var bumped := Bump(StartingStats(got), diff);
    var c1 := Stringify(bumped);
    var c2 := GenerateReadme(bumped, date);
    var s4 := UploadFile(s3, StatsPath, c1, false);
    UploadFileAbsent(s3, StatsPath, c1, false);
    UploadFileAbsent(s4, ReadmePath, c2, false);
    assert UpdateStats(s2, diff, date) == (UploadFile(s4, ReadmePath, c2, false), Done);
  }

  /** Uploads followed by an update that cannot read the stats: the uploads stay, the stats file is untouched. */
  lemma UploadsThenCorrupt(s1: Store, ups: seq<Upload>, diff: string, date: string)
    requires s1.repoExists && Reliable(s1, 2 * |ups| + 1)
    requires Distinct(PathsOf(ups)) && Encodable(ups) && StatsPath !in PathsOf(ups)
    requires GetFileJson(s1, StatsPath).1.Unreadable?
    ensures var r := UpdateStats(UploadAll(s1, ups), diff, date);
            && r.1 == Threw(GetFileJson(s1, StatsPath).1.failure)
            && Stored(r.0.files, ups, s1.nextSha)
            && StatsPath in r.0.files && StatsPath in s1.files && r.0.files[StatsPath] == s1.files[StatsPath]
  {
    var s2 := UploadAll(s1, ups);
    UploadAllShape(s1, ups);
    UploadAllStores(s1, ups);
    ReliableLater(s1, s2, 2 * |ups|, 1);
    UploadsKeepStats(s1, ups, diff);
    UploadAllFrame(s1, ups, StatsPath);
    UpdateStatsEffect(s2, diff, date);
  }

  /**
   * A stats file that cannot be read makes the push throw after the
   * uploads: they are stored, the stats and README are left as they were.
   */
  lemma RunPushCorruptStats(s: Store, ups: seq<Upload>, diff: string, date: string)
    requires s.repoExists && Reliable(s, 2 * |ups| + 2)
    requires Distinct(PathsOf(ups)) && Encodable(ups) && StatsPath !in PathsOf(ups)
    requires GetFileJson(s, StatsPath).1.Unreadable?
    ensures var r := RunPush(s, ups, diff, date);
            && r.1 == Aborted(GetFileJson(s, StatsPath).1.failure)
            && Stored(r.0.files, ups, s.nextSha)
            && StatsPath in r.0.files && r.0.files[StatsPath] == s.files[StatsPath]
  {
    var s1 := EnsureRepo(s, date).0;
    ExistingChecked(s, date, diff);
    ReliableLater(s, s1, 1, 2 * |ups| + 1);
    RunPushSteps(s, ups, diff, date);
    UploadsThenCorrupt(s1, ups, diff, date);
  }

  // ---- handleConfirmedPush ----

  /** `handleConfirmedPush`, given the pending slot, the identity and the clock. */
  function HandleConfirmedPush(s: Store, pending: Option<Problem>, id: Identity, clock: Clock): (r: (Store, PushOutcome))
    ensures r.1 == Skipped <==> pending.None? || !Truthy(id.token) || !Truthy(id.username)
    ensures r.1 == Skipped ==> r.0 == s
  {
    if pending.None? || !Truthy(id.token) || !Truthy(id.username) then (s, Skipped)
    else
      var p := pending.value;
      RunPush(s, PushArtifacts(p, clock), NormalizeDifficulty(p.difficulty), clock.localeDate)
  }

  // ---- the uploads as the handler writes them, one `if` after another ----

  /** `uploadFile` of the folder's file `a` when `c` holds; nothing otherwise. */
  function UploadIf(s: Store, c: bool, base: string, a: Artifact): Store
  {
    if c then UploadFile(s, FilePath(base, a.name), a.content, a.isBinary) else s
  }

  lemma {:induction false} UploadAllAppend(s: Store, a: seq<Upload>, b: seq<Upload>)
    ensures UploadAll(s, a + b) == UploadAll(UploadAll(s, a), b)
    decreases |a|
  {
    if a == [] {
      assert a + b == b;
    } else {
      assert (a + b)[0] == a[0];
      assert (a + b)[1..] == a[1..] + b;
      UploadAllAppend(UploadFile(s, a[0].path, a[0].content, a[0].isBinary), a[1..], b);
    }
  }

  lemma {:induction false} InFolderAppend(base: string, f: seq<Artifact>, g: seq<Artifact>)
    ensures InFolder(base, f + g) == InFolder(base, f) + InFolder(base, g)
  {
    var l := InFolder(base, f + g);
    var r := InFolder(base, f) + InFolder(base, g);
    forall i | 0 <= i < |l| ensures l[i] == r[i] {
      if i >= |f| {
        assert (f + g)[i] == g[i - |f|];
      }
    }
  }

  lemma {:induction false} UploadAllPresent(s: Store, c: bool, base: string, a: Artifact)
    ensures UploadAll(s, InFolder(base, Present(c, a))) == UploadIf(s, c, base, a)
  {
    var ups := InFolder(base, Present(c, a));
    if c {
      assert ups == [Upload(FilePath(base, a.name), a.content, a.isBinary)];
      assert ups[1..] == [];
    } else {
      assert ups == [];
    }
  }

  /**
   * Uploading the list of a push is the handler's sequence of steps:
   * `meta.json`, then each of `question.html`, `solution.<ext>` and
   * `screenshot.png` under its own `if`.
   */
  lemma ArtifactsInOrder(s: Store, p: Problem, diff: string, isoDate: string)
    ensures var base := BasePath(diff, p.slug);
            UploadAll(s, Artifacts(p, diff, isoDate)) ==
              UploadIf(UploadIf(UploadIf(UploadIf(s, true, base, MetaFile(p, diff, isoDate)),
                Truthy(p.questionHtml), base, QuestionFile(p)),
                Truthy(p.code), base, SolutionFile(p)),
                Truthy(p.screenshot), base, ScreenshotFile(p))
  {
    var base := BasePath(diff, p.slug);
    var m := Present(true, MetaFile(p, diff, isoDate));
    var q := Present(Truthy(p.questionHtml), QuestionFile(p));
    var c := Present(Truthy(p.code), SolutionFile(p));
    var sc := Present(Truthy(p.screenshot), ScreenshotFile(p));
    assert ArtifactList(p, diff, isoDate) == m + q + c + sc;
    InFolderAppend(base, m + q + c, sc);
    InFolderAppend(base, m + q, c);
    InFolderAppend(base, m, q);
    var s1 := UploadAll(s, InFolder(base, m));
    var s2 := UploadAll(s1, InFolder(base, q));
    var s3 := UploadAll(s2, InFolder(base, c));
    UploadAllAppend(s, InFolder(base, m) + InFolder(base, q) + InFolder(base, c), InFolder(base, sc));
    UploadAllAppend(s, InFolder(base, m) + InFolder(base, q), InFolder(base, c));
    UploadAllAppend(s, InFolder(base, m), InFolder(base, q));
    UploadAllPresent(s, true, base, MetaFile(p, diff, isoDate));
    UploadAllPresent(s1, Truthy(p.questionHtml), base, QuestionFile(p));
    UploadAllPresent(s2, Truthy(p.code), base, SolutionFile(p));
    UploadAllPresent(s3, Truthy(p.screenshot), base, ScreenshotFile(p));
  }

  /** The uploads of the push for the problem `p`. */
  function PushArtifacts(p: Problem, clock: Clock): seq<Upload>
  {
    Artifacts(p, NormalizeDifficulty(p.difficulty), clock.isoDate)
  }

  /** The uploads of a push are fit for the lemmas above. */
  lemma PushArtifactsFit(p: Problem, clock: Clock)
    requires ScreenshotIsBase64(p)
    ensures var ups := PushArtifacts(p, clock);
            Distinct(PathsOf(ups)) && Encodable(ups) && StatsPath !in PathsOf(ups) && ReadmePath !in PathsOf(ups)
  {
    ArtifactPathsDistinct(p, NormalizeDifficulty(p.difficulty), clock.isoDate);
    ArtifactsEncodable(p, NormalizeDifficulty(p.difficulty), clock.isoDate);
  }

  /**
   * The writes of a confirmed push, in order: the seeding of a new
   * repository, the problem's files, then the stats and the README.
   */
  lemma HandlePuts(s: Store, p: Problem, id: Identity, clock: Clock)
    requires Truthy(id.token) && Truthy(id.username)
    ensures var (s', out) := HandleConfirmedPush(s, Some(p), id, clock);
            var seeds := if LooksPresent(s) then [] else [ReadmePath, StatsPath];
            && out != Skipped
            && (out == Aborted(RepoCreationFailed) <==> !LooksPresent(s) && |s.log| + 1 in s.faults)
            && (out == Aborted(RepoCreationFailed) ==> Puts(s'.log) == Puts(s.log) && s'.files == s.files)
            && (out != Aborted(RepoCreationFailed) ==>
                  Puts(s'.log) == Puts(s.log) + seeds + PathsOf(PushArtifacts(p, clock))
                                  + (if out == Completed then [StatsPath, ReadmePath] else []))
  {
    RunPushPuts(s, PushArtifacts(p, clock), NormalizeDifficulty(p.difficulty), clock.localeDate);
  }

  /** A push touches nothing outside the problem's folder but the stats file and the README. */
  lemma HandleFrame(s: Store, pending: Option<Problem>, id: Identity, clock: Clock, q: string)
    requires Valid(s) && q != StatsPath && q != ReadmePath
    requires pending.Some? ==> q !in PathsOf(PushArtifacts(pending.value, clock))
    ensures var s' := HandleConfirmedPush(s, pending, id, clock).0;
            (q in s'.files <==> q in s.files) && (q in s.files ==> s'.files[q] == s.files[q])
  {
    if pending.Some? && Truthy(id.token) && Truthy(id.username) {
      var p := pending.value;
      RunPushFrame(s, PushArtifacts(p, clock), NormalizeDifficulty(p.difficulty), clock.localeDate, q);
    }
  }

  /**
   * Into an existing repository with no failing call and a readable (or
   * missing) stats file, a push completes: each of the problem's files
   * holds what was sent, the stats are bumped once for the problem's
   * difficulty, and the README shows them.
   */
  lemma HandleIntoExisting(s: Store, p: Problem, id: Identity, clock: Clock)
    requires Truthy(id.token) && Truthy(id.username) && ScreenshotIsBase64(p)
    requires s.repoExists && Reliable(s, 2 * |PushArtifacts(p, clock)| + 6)
    requires !GetFileJson(s, StatsPath).1.Unreadable?
    ensures var r := HandleConfirmedPush(s, Some(p), id, clock);
            var arts := PushArtifacts(p, clock);
            var bumped := BumpedStats(s, NormalizeDifficulty(p.difficulty));
            && r.1 == Completed && Stored(r.0.files, arts, s.nextSha)
            && Tallied(r.0.files, bumped, clock.localeDate, s.nextSha + |arts|)
  {
    PushArtifactsFit(p, clock);
    RunPushExisting(s, PushArtifacts(p, clock), NormalizeDifficulty(p.difficulty), clock.localeDate);
  }

  /**
   * The first push, into a repository that does not exist yet, with no
   * failing call: the repository is created and seeded, the problem's
   * files are stored after the two seeds, and the stats count this one
   * problem.
   */
  lemma HandleFirstPush(s: Store, p: Problem, id: Identity, clock: Clock)
    requires Truthy(id.token) && Truthy(id.username) && ScreenshotIsBase64(p)
    requires !s.repoExists && Reliable(s, 2 * |PushArtifacts(p, clock)| + 11)
    ensures var r := HandleConfirmedPush(s, Some(p), id, clock);
            var arts := PushArtifacts(p, clock);
            var first := Bump(Default(), NormalizeDifficulty(p.difficulty));
            && r.1 == Completed && r.0.repoExists && Stored(r.0.files, arts, s.nextSha + 2)
            && Tallied(r.0.files, first, clock.localeDate, s.nextSha + 2 + |arts|)
  {
    PushArtifactsFit(p, clock);
    RunPushFirst(s, PushArtifacts(p, clock), NormalizeDifficulty(p.difficulty), clock.localeDate);
  }

  /** A failing lookup of a missing repository: nothing is stored, yet the push completes. */
  lemma HandleLookupFault(s: Store, p: Problem, id: Identity, clock: Clock)
    requires Truthy(id.token) && Truthy(id.username)
    requires !s.repoExists && NextFails(s)
    ensures var r := HandleConfirmedPush(s, Some(p), id, clock);
            r.1 == Completed && !r.0.repoExists && r.0.files == s.files
  {
    RunPushLookupFault(s, PushArtifacts(p, clock), NormalizeDifficulty(p.difficulty), clock.localeDate);
  }

  /** A stats file that cannot be read aborts the push after the problem's files are stored. */
  lemma HandleCorruptStats(s: Store, p: Problem, id: Identity, clock: Clock)
    requires Truthy(id.token) && Truthy(id.username) && ScreenshotIsBase64(p)
    requires s.repoExists && Reliable(s, 2 * |PushArtifacts(p, clock)| + 2)
    requires GetFileJson(s, StatsPath).1.Unreadable?
    ensures var r := HandleConfirmedPush(s, Some(p), id, clock);
            var arts := PushArtifacts(p, clock);
            && r.1 == Aborted(GetFileJson(s, StatsPath).1.failure)
            && Stored(r.0.files, arts, s.nextSha)
            && StatsPath in r.0.files && r.0.files[StatsPath] == s.files[StatsPath]
  {
    PushArtifactsFit(p, clock);
    RunPushCorruptStats(s, PushArtifacts(p, clock), NormalizeDifficulty(p.difficulty), clock.localeDate);
  }
}
