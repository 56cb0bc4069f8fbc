/**
 * The GitHub repository `<user>/leetcode-tracker` as the extension sees it
 * through four REST calls: look the repository up, create it, read a file
 * of its contents and write (create or update) one.
 *
 * Every call is appended to a log with the status it got.  Which calls
 * fail with a server-side error (an expired token, rate limiting, a 5xx)
 * is fixed in advance by `faults`, the set of log positions that fail, so
 * every run is deterministic yet every failure pattern can be stated.
 */
module RemoteStore {
  import opened Wrappers
  import Base64

  /** What the extension can tell apart: `res.ok`, a 404, or any other failure. */
  datatype Status = Ok | NotFound | Failed

  datatype RemoteFile = RemoteFile(content: string, sha: nat)

  datatype Call =
    | RepoLookup
    | RepoCreate(name: string, description: string, isPrivate: bool)
    | ContentsGet(path: string)
    | ContentsPut(path: string, message: string, content: string, sha: Option<nat>)

  datatype Exchange = Exchange(call: Call, status: Status)

  datatype Store = Store(
    repoExists: bool,
    files: map<string, RemoteFile>,
    log: seq<Exchange>,
    faults: set<nat>,
    nextSha: nat)

  /** A repository that does not exist holds no files. */
  predicate Valid(s: Store)
  {
    !s.repoExists ==> s.files == map[]
  }

  /** The next call fails with a server-side error. */
  predicate NextFails(s: Store)
  {
    |s.log| in s.faults
  }

  /** None of the next `n` calls fails with a server-side error. */
  predicate Reliable(s: Store, n: nat)
  {
    forall k :: |s.log| <= k < |s.log| + n ==> k !in s.faults
  }

  function Record(s: Store, call: Call, status: Status): (r: Store)
    ensures r.log == s.log + [Exchange(call, status)]
  {
    s.(log := s.log + [Exchange(call, status)])
  }

  /** `GET /repos/<user>/leetcode-tracker`. */
  function Lookup(s: Store): (Store, Status)
  {
    var status := if NextFails(s) then Failed else if s.repoExists then Ok else NotFound;
    (Record(s, RepoLookup, status), status)
  }

  /** `POST /user/repos`: creates an empty repository unless one of that name already exists. */
  function Create(s: Store, name: string, description: string, isPrivate: bool): (Store, Status)
  {
    var call := RepoCreate(name, description, isPrivate);
    if NextFails(s) || s.repoExists then (Record(s, call, Failed), Failed)
    else (Record(s, call, Ok).(repoExists := true, files := map[]), Ok)
  }

  /** `GET /repos/<user>/leetcode-tracker/contents/<path>`: the file with its content and sha when `res.ok`. */
  function Read(s: Store, path: string): (Store, Option<RemoteFile>)
  {
    var call := ContentsGet(path);
    if NextFails(s) then (Record(s, call, Failed), None)
    else if !s.repoExists || path !in s.files then (Record(s, call, NotFound), None)
    else (Record(s, call, Ok), Some(s.files[path]))
  }

  /** The sha a write must carry: the current file's, or none for a new file. */
  function CurrentSha(s: Store, path: string): Option<nat>
  {
    if path in s.files then Some(s.files[path].sha) else None
  }

  /**
   * `PUT /repos/<user>/leetcode-tracker/contents/<path>`: stores `content`
   * under a fresh sha.  It is refused when the repository is missing, when
   * the content is not base64, or when `sha` is not the current file's
   * (a stale sha, or none for a file that exists).
   */
  function Write(s: Store, path: string, message: string, content: string, sha: Option<nat>): (Store, Status)
  {
    var call := ContentsPut(path, message, content, sha);
    if NextFails(s) then (Record(s, call, Failed), Failed)
    else if !s.repoExists then (Record(s, call, NotFound), NotFound)
    else if Base64.Decode(content).None? || sha != CurrentSha(s, path) then (Record(s, call, Failed), Failed)
    else
      var f := RemoteFile(content, s.nextSha);
      (Record(s, call, Ok).(files := s.files[path := f], nextSha := s.nextSha + 1), Ok)
  }

  /** The paths of the attempted writes in a log, in order, whatever their status. */
  function Puts(log: seq<Exchange>): seq<string>
  {
    if log == [] then []
    else
      var last := log[|log| - 1].call;
      Puts(log[..|log| - 1]) + (if last.ContentsPut? then [last.path] else [])
  }

  /** The number of repository creations in a log that succeeded. */
  function Creations(log: seq<Exchange>): nat
  {
    if log == [] then 0
    else
      var last := log[|log| - 1];
      Creations(log[..|log| - 1]) + (if last.call.RepoCreate? && last.status == Ok then 1 else 0)
  }

  lemma LogAppend(log: seq<Exchange>, e: Exchange)
    ensures Puts(log + [e]) == Puts(log) + (if e.call.ContentsPut? then [e.call.path] else [])
    ensures Creations(log + [e]) == Creations(log) + (if e.call.RepoCreate? && e.status == Ok then 1 else 0)
  {
    assert (log + [e])[..|log|] == log;
  }

  lemma LogAppendTwo(log: seq<Exchange>, e1: Exchange, e2: Exchange)
    requires e1.call.ContentsGet? && e2.call.ContentsPut?
    ensures Puts(log + [e1, e2]) == Puts(log) + [e2.call.path]
    ensures Creations(log + [e1, e2]) == Creations(log)
  {
    LogAppend(log, e1);
    LogAppend(log + [e1], e2);
    assert log + [e1, e2] == (log + [e1]) + [e2];
  }

  /** A window of reliable calls, seen from `k` calls later. */
  lemma ReliableLater(s: Store, s': Store, k: nat, n: nat)
    requires Reliable(s, k + n) && |s'.log| == |s.log| + k && s'.faults == s.faults
    ensures Reliable(s', n)
  {
  }

  /** Each call keeps a repository that does not exist empty. */
  lemma CallsPreserveValid(s: Store, name: string, description: string, isPrivate: bool,
                           path: string, message: string, content: string, sha: Option<nat>)
    requires Valid(s)
    ensures Valid(Lookup(s).0)
    ensures Valid(Create(s, name, description, isPrivate).0)
    ensures Valid(Read(s, path).0)
    ensures Valid(Write(s, path, message, content, sha).0)
  {
  }

  /** Only a successful write changes the files, and then only the one path. */
  lemma PutChangesOnePath(s: Store, path: string, message: string, content: string, sha: Option<nat>)
    ensures var (s', st) := Write(s, path, message, content, sha);
            && (st == Ok <==> !NextFails(s) && s.repoExists && Base64.Decode(content).Some? && sha == CurrentSha(s, path))
            && (st == Ok ==> s'.files == s.files[path := RemoteFile(content, s.nextSha)])
            && (st != Ok ==> s'.files == s.files)
            && s'.repoExists == s.repoExists
  {
  }

  /** A repository is created at most once: after a successful create every further create fails. */
  lemma CreateOnce(s: Store, name: string, description: string, isPrivate: bool)
    requires Create(s, name, description, isPrivate).1 == Ok
    ensures var s1 := Create(s, name, description, isPrivate).0;
            forall name', description', isPrivate' ::
              Create(s1, name', description', isPrivate').1 == Failed
  {
  }

  /** The repository as a mutable object; `State()` is its value. */
  class Remote {
    var repoExists: bool
    var files: map<string, RemoteFile>
    var log: seq<Exchange>
    var nextSha: nat
    const faults: set<nat>

    function State(): Store
      reads this
    {
      Store(repoExists, files, log, faults, nextSha)
    }

    constructor (init: Store)
      ensures State() == init
    {
      repoExists := init.repoExists;
      files := init.files;
      log := init.log;
      nextSha := init.nextSha;
      faults := init.faults;
    }

    method LookupRepo() returns (status: Status)
      modifies this
      ensures (State(), status) == Lookup(old(State()))
    {
      status := if |log| in faults then Failed else if repoExists then Ok else NotFound;
      log := log + [Exchange(RepoLookup, status)];
    }

    method CreateRepo(name: string, description: string, isPrivate: bool) returns (status: Status)
      modifies this
      ensures (State(), status) == Create(old(State()), name, description, isPrivate)
    {
      if |log| in faults || repoExists {
        status := Failed;
      } else {
        status := Ok;
        repoExists := true;
        files := map[];
      }
      log := log + [Exchange(RepoCreate(name, description, isPrivate), status)];
    }

    method GetContents(path: string) returns (file: Option<RemoteFile>)
      modifies this
      ensures (State(), file) == Read(old(State()), path)
    {
      var status;
      if |log| in faults {
        status, file := Failed, None;
      } else if !repoExists || path !in files {
        status, file := NotFound, None;
      } else {
        status, file := Ok, Some(files[path]);
      }
      log := log + [Exchange(ContentsGet(path), status)];
    }

    method PutContents(path: string, message: string, content: string, sha: Option<nat>) returns (status: Status)
      modifies this
      ensures (State(), status) == Write(old(State()), path, message, content, sha)
    {
      var current := if path in files then Some(files[path].sha) else None;
      if |log| in faults {
        status := Failed;
      } else if !repoExists {
        status := NotFound;
      } else if Base64.Decode(content).None? || sha != current {
        status := Failed;
      } else {
        status := Ok;
        files := files[path := RemoteFile(content, nextSha)];
        nextSha := nextSha + 1;
      }
      log := log + [Exchange(ContentsPut(path, message, content, sha), status)];
    }
  }
}
