/**
 * The push pipeline of the background worker as functions from one
 * repository state to the next: `uploadFile`, `ensureRepo`,
 * `getFileJSON`, `updateStats` and `handleConfirmedPush`.  A thrown
 * exception is a `Threw` flow; the state it carries holds every call made
 * before the throw.
 */
module Push {
  import opened Wrappers
  import opened JsText
  import opened Bytes
  import Base64
  import Utf8
  import opened StatsDoc
  import opened MetaDoc
  import opened Messages
  import opened Helpers
  import opened RemoteStore

  const RepoName := "leetcode-tracker"
  const RepoDescription := "\U{1F4CA} Automated LeetCode Tracker"
  const StatsPath := "stats/summary.json"
  const ReadmePath := "README.md"

  /** The exceptions of the pipeline: the creation error it throws, and those of `atob` and `JSON.parse`. */
  datatype Failure = RepoCreationFailed | InvalidBase64 | InvalidJson

  datatype Flow = Done | Threw(failure: Failure)

  // ---- uploadFile ----

  /** The `content` field of the write: binary content as it is, text through `base64EncodeUnicode`. */
  function UploadBody(content: string, isBinary: bool): string
  {
    if isBinary then content else Base64EncodeUnicode(content)
  }

  /** `sha` is set only from a successful read. */
  function ShaOf(file: Option<RemoteFile>): Option<nat>
  {
    if file.Some? then Some(file.value.sha) else None
  }

  /** `uploadFile`: read the path for its sha, then write without checking the answer. */
  function UploadFile(s: Store, path: string, content: string, isBinary: bool): Store
  {
    var (s1, existing) := Read(s, path);
    Write(s1, path, "Update " + path, UploadBody(content, isBinary), ShaOf(existing)).0
  }

  /**
   * Exactly two calls: a read of `path`, then a write of `path` with the
   * message "Update <path>" and the encoded content, which carries a sha
   * if and only if the read succeeded, and then the sha read.
   */
  lemma UploadFileCalls(s: Store, path: string, content: string, isBinary: bool)
    ensures var s' := UploadFile(s, path, content, isBinary);
            && |s'.log| == |s.log| + 2 && s'.log == s.log + [s'.log[|s.log|], s'.log[|s.log| + 1]]
            && s'.log[|s.log|].call == ContentsGet(path)
            && var put := s'.log[|s.log| + 1].call;
               && put.ContentsPut? && put.path == path && put.message == "Update " + path
               && put.content == UploadBody(content, isBinary)
               && (put.sha.Some? <==> s'.log[|s.log|].status == Ok)
               && (put.sha.Some? ==> put.sha == CurrentSha(s, path))
  {
    var (s1, existing) := Read(s, path);
    assert s1.log == s.log + [s1.log[|s.log|]];
    assert s1.log[|s.log|].call == ContentsGet(path);
    assert existing.Some? <==> s1.log[|s.log|].status == Ok;
    var (s2, _) := Write(s1, path, "Update " + path, UploadBody(content, isBinary), ShaOf(existing));
    assert s2.log == s1.log + [Exchange(ContentsPut(path, "Update " + path, UploadBody(content, isBinary), ShaOf(existing)), s2.log[|s1.log|].status)];
    assert s2.log == s.log + [s2.log[|s.log|], s2.log[|s.log| + 1]];
  }

  lemma UploadFilePuts(s: Store, path: string, content: string, isBinary: bool)
    ensures Puts(UploadFile(s, path, content, isBinary).log) == Puts(s.log) + [path]
    ensures Creations(UploadFile(s, path, content, isBinary).log) == Creations(s.log)
  {
    var s' := UploadFile(s, path, content, isBinary);
    UploadFileCalls(s, path, content, isBinary);
    LogAppendTwo(s.log, s'.log[|s.log|], s'.log[|s.log| + 1]);
  }

  /** No path but `path` changes, the repository does not appear or vanish, and `path` either keeps its file or gets the new one. */
  lemma UploadFileFrame(s: Store, path: string, content: string, isBinary: bool)
    ensures var s' := UploadFile(s, path, content, isBinary);
            && s'.repoExists == s.repoExists && s'.faults == s.faults
            && (s'.files == s.files || s'.files == s.files[path := RemoteFile(UploadBody(content, isBinary), s.nextSha)])
  {
  }

  /**
   * On a reachable repository the file at `path` ends up holding the
   * content: as given when binary (if it is base64), else encoded.
   */
  lemma UploadFileStores(s: Store, path: string, content: string, isBinary: bool)
    requires s.repoExists && Reliable(s, 2)
    requires isBinary ==> Base64.Decode(content).Some?
    ensures var s' := UploadFile(s, path, content, isBinary);
            && s'.files == s.files[path := RemoteFile(UploadBody(content, isBinary), s.nextSha)]
            && s'.nextSha == s.nextSha + 1
  {
    assert |s.log| !in s.faults && |s.log| + 1 !in s.faults;
    if !isBinary {
      Base64.DecodeEncode(Utf8.Encode(content));
    }
  }

  /** A text file so stored reads back through `atob` as its UTF-8 bytes. */
  lemma UploadFileReadsBack(s: Store, path: string, content: string)
    requires s.repoExists && Reliable(s, 2)
    ensures var files := UploadFile(s, path, content, false).files;
            path in files && Base64.Atob(files[path].content) == Some(CharsOf(Utf8.Encode(content)))
  {
    UploadFileStores(s, path, content, false);
    AtobOfEncodeUnicode(content);
  }

  /**
   * A read that fails with a server error on a file that exists leaves the
   * write without a sha, the write is refused, and nothing is reported:
   * the file keeps its old content.
   */
  lemma UploadFileLostUpdate(s: Store, path: string, content: string, isBinary: bool)
    requires NextFails(s) && s.repoExists && path in s.files
    ensures UploadFile(s, path, content, isBinary).files == s.files
  {
  }

  /** One upload: two calls, `path` written, the repository neither created nor dropped. */
  lemma UploadFileLog(s: Store, path: string, content: string, isBinary: bool)
    ensures var s' := UploadFile(s, path, content, isBinary);
            && s'.repoExists == s.repoExists && s'.faults == s.faults
            && |s'.log| == |s.log| + 2
            && Puts(s'.log) == Puts(s.log) + [path] && Creations(s'.log) == Creations(s.log)
  {
    UploadFileCalls(s, path, content, isBinary);
    UploadFilePuts(s, path, content, isBinary);
    UploadFileFrame(s, path, content, isBinary);
  }

  /** Two uploads in a row: four calls, both paths written in order, the repository neither created nor dropped. */
  lemma UploadTwoLog(s: Store, p1: string, c1: string, b1: bool, p2: string, c2: string, b2: bool)
    ensures var s' := UploadFile(UploadFile(s, p1, c1, b1), p2, c2, b2);
            && s'.repoExists == s.repoExists && s'.faults == s.faults
            && |s'.log| == |s.log| + 4
            && Puts(s'.log) == Puts(s.log) + [p1, p2] && Creations(s'.log) == Creations(s.log)
  {
    UploadFileLog(s, p1, c1, b1);
    UploadFileLog(UploadFile(s, p1, c1, b1), p2, c2, b2);
  }

  lemma TwoUpdates(m: map<string, RemoteFile>, p1: string, f1: RemoteFile, p2: string, f2: RemoteFile)
    requires p1 != p2
    ensures var m' := m[p1 := f1][p2 := f2];
            && m'.Keys == m.Keys + {p1, p2} && m'[p1] == f1 && m'[p2] == f2
            && forall q :: q in m && q != p1 && q != p2 ==> m'[q] == m[q]
  {
  }

  /** Two text uploads to distinct paths of a reachable repository with no failing call, file by file. */
  lemma UploadTwoStores(s: Store, p1: string, c1: string, p2: string, c2: string)
    requires s.repoExists && Reliable(s, 4) && p1 != p2
    ensures var s' := UploadFile(UploadFile(s, p1, c1, false), p2, c2, false);
            && s'.nextSha == s.nextSha + 2
            && s'.files.Keys == s.files.Keys + {p1, p2}
            && s'.files[p1] == RemoteFile(Base64EncodeUnicode(c1), s.nextSha)
            && s'.files[p2] == RemoteFile(Base64EncodeUnicode(c2), s.nextSha + 1)
            && forall q :: q in s.files && q != p1 && q != p2 ==> s'.files[q] == s.files[q]
  {
    var s1 := UploadFile(s, p1, c1, false);
    UploadFileCalls(s, p1, c1, false);
    UploadFileFrame(s, p1, c1, false);
    UploadFileStores(s, p1, c1, false);
    ReliableLater(s, s1, 2, 2);
    UploadFileStores(s1, p2, c2, false);
    TwoUpdates(s.files, p1, RemoteFile(Base64EncodeUnicode(c1), s.nextSha), p2, RemoteFile(Base64EncodeUnicode(c2), s.nextSha + 1));
  }

  // ---- ensureRepo ----

  /** `ensureRepo`: only a 404 leads to a create; a successful create is seeded with the README, then the stats. */
  function EnsureRepo(s: Store, date: string): (Store, Flow)
  {
    var (s1, check) := Lookup(s);
    if check != NotFound then (s1, Done)
    else
      var (s2, create) := Create(s1, RepoName, RepoDescription, false);
      if create != Ok then (s2, Threw(RepoCreationFailed))
      else (UploadFile(UploadFile(s2, ReadmePath, GenerateReadme(Default(), date), false), StatsPath, Stringify(Default()), false), Done)
  }

  /** The lookup did not answer 404: an existing repository, or any failure of the lookup itself. */
  predicate LooksPresent(s: Store)
  {
    NextFails(s) || s.repoExists
  }

  /** Any answer but 404 returns after the one lookup, with no create and no write. */
  lemma EnsureRepoPresent(s: Store, date: string)
    requires LooksPresent(s)
    ensures EnsureRepo(s, date) == (Lookup(s).0, Done)
    ensures var s' := EnsureRepo(s, date).0;
            && s'.files == s.files && s'.repoExists == s.repoExists && |s'.log| == |s.log| + 1
            && Puts(s'.log) == Puts(s.log) && Creations(s'.log) == Creations(s.log)
  {
    LogAppend(s.log, Exchange(RepoLookup, Lookup(s).1));
  }

  /** On a 404 a failed create throws before anything is written. */
  lemma EnsureRepoCreateFails(s: Store, date: string)
    requires !LooksPresent(s) && |s.log| + 1 in s.faults
    ensures var (s', flow) := EnsureRepo(s, date);
            && flow == Threw(RepoCreationFailed)
            && s'.log == s.log + [Exchange(RepoLookup, NotFound), Exchange(RepoCreate(RepoName, RepoDescription, false), Failed)]
            && s'.files == s.files && !s'.repoExists
            && Puts(s'.log) == Puts(s.log) && Creations(s'.log) == Creations(s.log)
  {
    var e1 := Exchange(RepoLookup, NotFound);
    var e2 := Exchange(RepoCreate(RepoName, RepoDescription, false), Failed);
    var s1 := Record(s, RepoLookup, NotFound);
    assert Lookup(s) == (s1, NotFound);
    var s2 := Record(s1, e2.call, Failed);
    assert Create(s1, RepoName, RepoDescription, false) == (s2, Failed);
    assert EnsureRepo(s, date) == (s2, Threw(RepoCreationFailed));
    LogAppend(s.log, e1);
    LogAppend(s1.log, e2);
    assert s2.log == s.log + [e1, e2];
  }

  /** The state right after a successful create, before the seeding writes. */
  function Created(s: Store): Store
  {
    Create(Lookup(s).0, RepoName, RepoDescription, false).0
  }

  lemma CreatedState(s: Store)
    requires !LooksPresent(s) && |s.log| + 1 !in s.faults
    ensures var s2 := Created(s);
            && Create(Lookup(s).0, RepoName, RepoDescription, false).1 == Ok
            && s2.repoExists && s2.files == map[] && s2.faults == s.faults && s2.nextSha == s.nextSha
            && |s2.log| == |s.log| + 2
            && Puts(s2.log) == Puts(s.log) && Creations(s2.log) == Creations(s.log) + 1
  {
    var e1 := Exchange(RepoLookup, NotFound);
    var e2 := Exchange(RepoCreate(RepoName, RepoDescription, false), Ok);
    LogAppend(s.log, e1);
    LogAppend(s.log + [e1], e2);
  }

  /** The two seeding writes into a fresh, empty repository. */
  lemma SeedsStored(s2: Store, readme: string, stats: string)
    requires s2.repoExists && s2.files == map[] && Reliable(s2, 4)
    ensures var s4 := UploadFile(UploadFile(s2, ReadmePath, readme, false), StatsPath, stats, false);
            && s4.repoExists && s4.nextSha == s2.nextSha + 2
            && s4.files.Keys == {ReadmePath, StatsPath}
            && s4.files[ReadmePath] == RemoteFile(Base64EncodeUnicode(readme), s2.nextSha)
            && s4.files[StatsPath] == RemoteFile(Base64EncodeUnicode(stats), s2.nextSha + 1)
  {
    UploadTwoLog(s2, ReadmePath, readme, false, StatsPath, stats, false);
    UploadTwoStores(s2, ReadmePath, readme, StatsPath, stats);
  }

  /**
   * On a 404 and a successful create the new repository holds exactly the
   * README with zero counts and the zeroed stats document, written in
   * that order, each under a fresh sha, when no call fails.
   */
  lemma EnsureRepoSeeds(s: Store, date: string)
    requires !LooksPresent(s) && Reliable(s, 6)
    ensures var (s', flow) := EnsureRepo(s, date);
            && flow == Done && s'.repoExists && s'.nextSha == s.nextSha + 2
            && s'.files.Keys == {ReadmePath, StatsPath}
            && s'.files[ReadmePath] == RemoteFile(Base64EncodeUnicode(GenerateReadme(Default(), date)), s.nextSha)
            && s'.files[StatsPath] == RemoteFile(Base64EncodeUnicode(Stringify(Default())), s.nextSha + 1)
  {
    var s2 := Created(s);
    CreatedState(s);
    ReliableLater(s, s2, 2, 4);
    SeedsStored(s2, GenerateReadme(Default(), date), Stringify(Default()));
  }

  /** The writes and creations an `ensureRepo` call adds to the log, in every case. */
  lemma EnsureRepoPuts(s: Store, date: string)
    ensures var (s', flow) := EnsureRepo(s, date);
            && (flow == Done <==> LooksPresent(s) || |s.log| + 1 !in s.faults)
            && Puts(s'.log) == Puts(s.log) + (if !LooksPresent(s) && flow == Done then [ReadmePath, StatsPath] else [])
            && Creations(s'.log) == Creations(s.log) + (if !LooksPresent(s) && flow == Done then 1 else 0)
            && (s'.repoExists <==> s.repoExists || (!LooksPresent(s) && flow == Done))
  {
    if LooksPresent(s) {
      EnsureRepoPresent(s, date);
    } else if |s.log| + 1 in s.faults {
      EnsureRepoCreateFails(s, date);
    } else {
      var s2 := Created(s);
      CreatedState(s);
      UploadTwoLog(s2, ReadmePath, GenerateReadme(Default(), date), false, StatsPath, Stringify(Default()), false);
    }
  }

  /** One call when the repository looks present, two when the create fails, six with the seeding. */
  lemma EnsureRepoCalls(s: Store, date: string)
    ensures var s' := EnsureRepo(s, date).0;
            && s'.faults == s.faults
            && |s'.log| == |s.log| + (if LooksPresent(s) then 1 else if |s.log| + 1 in s.faults then 2 else 6)
  {
    if LooksPresent(s) {
      EnsureRepoPresent(s, date);
    } else if |s.log| + 1 in s.faults {
      EnsureRepoCreateFails(s, date);
    } else {
      var s2 := Created(s);
      CreatedState(s);
      UploadTwoLog(s2, ReadmePath, GenerateReadme(Default(), date), false, StatsPath, Stringify(Default()), false);
    }
  }

  /**
   * No file but the README and the stats is touched: an existing
   * repository keeps its files, and a new one starts empty, as a missing
   * repository's files are.
   */
  lemma EnsureRepoFrame(s: Store, date: string, q: string)
    requires Valid(s) && q != StatsPath && q != ReadmePath
    ensures var s' := EnsureRepo(s, date).0;
            (q in s'.files <==> q in s.files) && (q in s.files ==> s'.files[q] == s.files[q])
  {
    if LooksPresent(s) {
      EnsureRepoPresent(s, date);
    } else if |s.log| + 1 in s.faults {
      EnsureRepoCreateFails(s, date);
    } else {
      var s2 := Created(s);
      CreatedState(s);
      var s3 := UploadFile(s2, ReadmePath, GenerateReadme(Default(), date), false);
      UploadFileFrame(s2, ReadmePath, GenerateReadme(Default(), date), false);
      UploadFileFrame(s3, StatsPath, Stringify(Default()), false);
    }
  }

  /** Two calls in a row create the repository at most once. */
  lemma EnsureRepoTwice(s: Store, d1: string, d2: string)
    ensures var s1 := EnsureRepo(s, d1).0;
            Creations(EnsureRepo(s1, d2).0.log) <= Creations(s.log) + 1
  {
    var (s1, f1) := EnsureRepo(s, d1);
    EnsureRepoPuts(s, d1);
    EnsureRepoPuts(s1, d2);
  }

  // ---- getFileJSON ----

  /** What `getFileJSON` yields: `null` when the read is not ok, a parsed document, or an exception. */
  datatype FileJson = Missing | Parsed(stats: Stats) | Unreadable(failure: Failure)

  /** `getFileJSON`: `JSON.parse(atob(content))` of a successful read. */
  function GetFileJson(s: Store, path: string): (Store, FileJson)
  {
    var (s1, file) := Read(s, path);
    if file.None? then (s1, Missing)
    else
      match Base64.Atob(file.value.content)
      case None => (s1, Unreadable(InvalidBase64))
      case Some(text) =>
        match Parse(text)
        case None => (s1, Unreadable(InvalidJson))
        case Some(st) => (s1, Parsed(st))
  }

  /** Only the read is logged; the result is `null` exactly when the read fails or finds nothing. */
  lemma GetFileJsonEffect(s: Store, path: string)
    ensures var (s', r) := GetFileJson(s, path);
            && s' == Read(s, path).0
            && s'.files == s.files && s'.repoExists == s.repoExists && s'.faults == s.faults && s'.nextSha == s.nextSha
            && |s'.log| == |s.log| + 1
            && Puts(s'.log) == Puts(s.log) && Creations(s'.log) == Creations(s.log)
            && (r.Missing? <==> NextFails(s) || !s.repoExists || path !in s.files)
  {
    LogAppend(s.log, Read(s, path).0.log[|s.log|]);
    assert Read(s, path).0.log == s.log + [Read(s, path).0.log[|s.log|]];
  }

  /** Two reads of the same file in stores that both answer give the same result. */
  lemma GetFileJsonSameFile(a: Store, b: Store, path: string)
    requires !NextFails(a) && !NextFails(b) && a.repoExists == b.repoExists
    requires (path in a.files <==> path in b.files) && (path in a.files ==> a.files[path] == b.files[path])
    ensures GetFileJson(a, path).1 == GetFileJson(b, path).1
  {
  }

  /** A document written by `uploadFile` reads back as itself, with `NaN` as `null`. */
  lemma GetFileJsonRoundTrip(s: Store, path: string, st: Stats)
    requires !NextFails(s) && s.repoExists && path in s.files
    requires s.files[path].content == Base64EncodeUnicode(Stringify(st))
    requires DistinctKeys(st) && KeysAscii(st)
    ensures GetFileJson(s, path).1 == Parsed(Canon(st))
  {
    StringifyAscii(st);
    AtobOfEncodeAscii(Stringify(st));
    ParseStringify(st);
  }

  // ---- updateStats ----

  /** The document `updateStats` bumps: the one read, or `DEFAULT_STATS` when the read gave `null`. */
  function StartingStats(got: FileJson): Stats
  {
    if got.Parsed? then got.stats else Default()
  }

  /** `updateStats`: read, bump, write the stats, then the README built from the same bumped document. */
  function UpdateStats(s: Store, diff: string, date: string): (Store, Flow)
  {
    var (s1, got) := GetFileJson(s, StatsPath);
    if got.Unreadable? then (s1, Threw(got.failure))
    else
      var bumped := Bump(StartingStats(got), diff);
      (UploadFile(UploadFile(s1, StatsPath, Stringify(bumped), false), ReadmePath, GenerateReadme(bumped, date), false), Done)
  }

  /** The document an update writes, given what its read found. */
  function BumpedStats(s: Store, diff: string): Stats
  {
    Bump(StartingStats(GetFileJson(s, StatsPath).1), diff)
  }

  /**
   * An unreadable stats file throws before any write; otherwise the stats
   * are written before the README.
   */
  lemma UpdateStatsEffect(s: Store, diff: string, date: string)
    ensures var (s', flow) := UpdateStats(s, diff, date);
            && (flow == Done <==> !GetFileJson(s, StatsPath).1.Unreadable?)
            && (flow.Threw? ==> flow.failure == GetFileJson(s, StatsPath).1.failure && s'.files == s.files && |s'.log| == |s.log| + 1)
            && s'.repoExists == s.repoExists && s'.faults == s.faults
            && Puts(s'.log) == Puts(s.log) + (if flow == Done then [StatsPath, ReadmePath] else [])
            && Creations(s'.log) == Creations(s.log)
            && (flow == Done ==> |s'.log| == |s.log| + 5)
  {
    var (s1, got) := GetFileJson(s, StatsPath);
    GetFileJsonEffect(s, StatsPath);
    if !got.Unreadable? {
      var bumped := Bump(StartingStats(got), diff);
      UploadTwoLog(s1, StatsPath, Stringify(bumped), false, ReadmePath, GenerateReadme(bumped, date), false);
    }
  }

  /**
   * On a reachable repository with no failing call, a readable (or
   * missing) stats file is replaced by the bumped document and the README
   * by one showing its counters; every other file is kept.
   */
  lemma UpdateStatsWrites(s: Store, diff: string, date: string)
    requires s.repoExists && Reliable(s, 5) && !GetFileJson(s, StatsPath).1.Unreadable?
    ensures var (s', flow) := UpdateStats(s, diff, date);
            && flow == Done && s'.nextSha == s.nextSha + 2
            && s'.files.Keys == s.files.Keys + {StatsPath, ReadmePath}
            && s'.files[StatsPath] == RemoteFile(Base64EncodeUnicode(Stringify(BumpedStats(s, diff))), s.nextSha)
            && s'.files[ReadmePath] == RemoteFile(Base64EncodeUnicode(GenerateReadme(BumpedStats(s, diff), date)), s.nextSha + 1)
            && forall q :: q in s.files && q != StatsPath && q != ReadmePath ==> s'.files[q] == s.files[q]
  {
    var (s1, got) := GetFileJson(s, StatsPath);
    GetFileJsonEffect(s, StatsPath);
    ReliableLater(s, s1, 1, 4);
    var bumped := Bump(StartingStats(got), diff);
    UploadTwoStores(s1, StatsPath, Stringify(bumped), ReadmePath, GenerateReadme(bumped, date));
  }

  /** No file but the stats and the README is touched by an update, whatever the calls answer. */
  lemma UpdateStatsFrame(s: Store, diff: string, date: string, q: string)
    requires q != StatsPath && q != ReadmePath
    ensures var s' := UpdateStats(s, diff, date).0;
            (q in s'.files <==> q in s.files) && (q in s.files ==> s'.files[q] == s.files[q])
  {
    var (s1, got) := GetFileJson(s, StatsPath);
    GetFileJsonEffect(s, StatsPath);
    if !got.Unreadable? {
      var bumped := Bump(StartingStats(got), diff);
      var s2 := UploadFile(s1, StatsPath, Stringify(bumped), false);
      UploadFileFrame(s1, StatsPath, Stringify(bumped), false);
      UploadFileFrame(s2, ReadmePath, GenerateReadme(bumped, date), false);
    }
  }

  /** A read that is not ok starts again from `DEFAULT_STATS`, whatever the repository held. */
  lemma UpdateStatsFromDefault(s: Store, diff: string)
    requires NextFails(s) || !s.repoExists || StatsPath !in s.files
    ensures BumpedStats(s, diff) == Bump(Default(), diff)
  {
  }

  /** After an update on a reachable repository, reading the stats back yields the bumped document. */
  lemma UpdateStatsReadBack(s: Store, diff: string, date: string)
    requires s.repoExists && Reliable(s, 6) && !GetFileJson(s, StatsPath).1.Unreadable?
    requires DistinctKeys(BumpedStats(s, diff)) && KeysAscii(BumpedStats(s, diff))
    ensures GetFileJson(UpdateStats(s, diff, date).0, StatsPath).1 == Parsed(Canon(BumpedStats(s, diff)))
  {
    var s' := UpdateStats(s, diff, date).0;
    UpdateStatsWrites(s, diff, date);
    UpdateStatsEffect(s, diff, date);
    ReliableLater(s, s', 5, 1);
    GetFileJsonRoundTrip(s', StatsPath, BumpedStats(s, diff));
  }

  /**
   * Two updates in a row on a reachable repository, starting with no
   * stats file: the second reads back what the first wrote, so the counts
   * accumulate and `Total == Easy + Medium + Hard` is kept for the three
   * difficulties.
   */
  lemma UpdateStatsTwice(s: Store, d1: string, d2: string, date1: string, date2: string)
    requires s.repoExists && Reliable(s, 6)
    requires d1 == "Easy" || d1 == "Medium" || d1 == "Hard"
    requires d2 == "Easy" || d2 == "Medium" || d2 == "Hard"
    requires GetFileJson(s, StatsPath).1.Missing?
    ensures var s1 := UpdateStats(s, d1, date1).0;
            && UpdateStats(s, d1, date1).1 == Done && UpdateStats(s1, d2, date2).1 == Done
            && BumpedStats(s1, d2) == Bump(Bump(Default(), d1), d2)
            && Balanced(BumpedStats(s1, d2))
  {
    var s1 := UpdateStats(s, d1, date1).0;
    var first := Bump(Default(), d1);
    assert BumpedStats(s, d1) == first;
    UpdateStatsEffect(s, d1, date1);
    BumpDefault(d1, d2);
    UpdateStatsReadBack(s, d1, date1);
    assert GetFileJson(s1, StatsPath).1 == Parsed(first);
    assert BumpedStats(s1, d2) == Bump(first, d2);
    UpdateStatsEffect(s1, d2, date2);
  }
}
