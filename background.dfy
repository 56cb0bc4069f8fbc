/**
 * The background worker: the `pendingProblem` slot, the runtime message
 * listener that drives it, and the push pipeline run against a mutable
 * repository.
 *
 * `Step` is the listener as a function of the worker's value; the class
 * `Worker` is the same listener written step by step, each of its methods
 * proved to change the repository exactly as the corresponding function of
 * `Push` or `Confirm` says.
 */
module Background {
  import opened Wrappers
  import opened JsText
  import opened StatsDoc
  import opened MetaDoc
  import opened Messages
  import opened Helpers
  import opened RemoteStore
  import Push
  import Base64
  import opened Confirm

  /** What the listener asks of the browser: the OAuth window, or the popup. */
  datatype Effect = StartOAuth | OpenPopup

  /** `sendResponse(pendingProblem)` for `GET_PENDING_PROBLEM`; no answer otherwise. */
  datatype Reply = NoReply | Reply(problem: Option<Problem>)

  /** The worker's value: the `pendingProblem` slot and the repository. */
  datatype WorkerState = WorkerState(pending: Option<Problem>, store: Store)

  /**
   * One message of `chrome.runtime.onMessage`, in the listener's order of
   * tests.  A confirmed push clears the slot only when it runs to its end;
   * a type the listener does not know changes nothing.
   */
  function Step(w: WorkerState, msg: Message, id: Identity, clock: Clock): (WorkerState, Reply, seq<Effect>)
  {
    if msg.kind == LoginGithub then (w, NoReply, [StartOAuth])
    else if msg.kind == LeetcodeAccepted then (w.(pending := msg.payload), NoReply, [OpenPopup])
    else if msg.kind == GetPendingProblem then (w, Reply(w.pending), [])
    else if msg.kind == UserConfirmedPush then
      var (s', out) := HandleConfirmedPush(w.store, w.pending, id, clock);
      (WorkerState(if out == Completed then None else w.pending, s'), NoReply, [])
    else if msg.kind == UserDeniedPush then (w.(pending := None), NoReply, [])
    else (w, NoReply, [])
  }

  /** The messages of a session in order, each with the identity and the date it is handled with. */
  datatype Event = Event(msg: Message, id: Identity, clock: Clock)

  /** The worker after a sequence of messages, with the effects they asked for. */
  function Run(w: WorkerState, evs: seq<Event>): (WorkerState, seq<Effect>)
    decreases |evs|
  {
    if evs == [] then (w, [])
    else
      var (w1, _, fx) := Step(w, evs[0].msg, evs[0].id, evs[0].clock);
      var (w2, more) := Run(w1, evs[1..]);
      (w2, fx + more)
  }

  // ---- the listener, message by message ----

  /** `LOGIN_GITHUB` starts the OAuth flow and changes nothing. */
  lemma StepLogin(w: WorkerState, msg: Message, id: Identity, clock: Clock)
    requires msg.kind == LoginGithub
    ensures Step(w, msg, id, clock) == (w, NoReply, [StartOAuth])
  {
  }

  /** `LEETCODE_ACCEPTED` replaces the slot with the payload, whatever was there, and opens the popup. */
  lemma StepAccepted(w: WorkerState, msg: Message, id: Identity, clock: Clock)
    requires msg.kind == LeetcodeAccepted
    ensures var (w', reply, fx) := Step(w, msg, id, clock);
            w'.pending == msg.payload && w'.store == w.store && reply == NoReply && fx == [OpenPopup]
  {
  }

  /** `GET_PENDING_PROBLEM` answers with the slot and changes nothing. */
  lemma StepGetPending(w: WorkerState, msg: Message, id: Identity, clock: Clock)
    requires msg.kind == GetPendingProblem
    ensures Step(w, msg, id, clock) == (w, Reply(w.pending), [])
  {
  }

  /**
   * `USER_CONFIRMED_PUSH` runs the push on what the slot holds; the slot is
   * emptied if and only if the push ran to its end.
   */
  lemma StepConfirmed(w: WorkerState, msg: Message, id: Identity, clock: Clock)
    requires msg.kind == UserConfirmedPush
    ensures var (w', reply, fx) := Step(w, msg, id, clock);
            var (s', out) := HandleConfirmedPush(w.store, w.pending, id, clock);
            && w'.store == s' && reply == NoReply && fx == []
            && (w'.pending == None <==> out == Completed || w.pending == None)
            && (out != Completed ==> w'.pending == w.pending)
  {
  }

  /** `USER_DENIED_PUSH` empties the slot and leaves the repository alone. */
  lemma StepDenied(w: WorkerState, msg: Message, id: Identity, clock: Clock)
    requires msg.kind == UserDeniedPush
    ensures Step(w, msg, id, clock) == (w.(pending := None), NoReply, [])
  {
  }

  predicate Known(kind: string)
  {
    kind in {LoginGithub, LeetcodeAccepted, GetPendingProblem, UserConfirmedPush, UserDeniedPush}
  }

  /** Any other message type is ignored. */
  lemma StepOther(w: WorkerState, msg: Message, id: Identity, clock: Clock)
    requires !Known(msg.kind)
    ensures Step(w, msg, id, clock) == (w, NoReply, [])
  {
  }

  /** Only a confirmed push touches the repository, and only the popup, login and push messages have effects. */
  lemma StepStoreOnlyOnPush(w: WorkerState, msg: Message, id: Identity, clock: Clock)
    ensures var (w', reply, fx) := Step(w, msg, id, clock);
            && (msg.kind != UserConfirmedPush ==> w'.store == w.store)
            && (reply != NoReply <==> msg.kind == GetPendingProblem)
            && (fx != [] <==> msg.kind == LoginGithub || msg.kind == LeetcodeAccepted)
  {
  }

  // ---- sequences of messages ----

  /** The popup sees the problem the content script sent last: a later `LEETCODE_ACCEPTED` overwrites an earlier one. */
  lemma LastAcceptedWins(w: WorkerState, m1: Message, m2: Message, get: Message, id: Identity, clock: Clock)
    requires m1.kind == LeetcodeAccepted && m2.kind == LeetcodeAccepted && get.kind == GetPendingProblem
    ensures var w1 := Step(w, m1, id, clock).0;
            var w2 := Step(w1, m2, id, clock).0;
            Step(w2, get, id, clock).1 == Reply(m2.payload)
  {
  }

  /** A denied problem is never pushed: a confirmation right after a denial leaves the repository as it was. */
  lemma DeniedNotPushed(w: WorkerState, deny: Message, confirm: Message, id: Identity, clock: Clock)
    requires deny.kind == UserDeniedPush && confirm.kind == UserConfirmedPush
    ensures var w1 := Step(w, deny, id, clock).0;
            Step(w1, confirm, id, clock).0 == w1
  {
  }

  /** A push that completed is not repeated: a second confirmation finds the slot empty and does nothing. */
  lemma CompletedOnce(w: WorkerState, confirm: Message, id: Identity, clock: Clock, id2: Identity, clock2: Clock)
    requires confirm.kind == UserConfirmedPush
    requires HandleConfirmedPush(w.store, w.pending, id, clock).1 == Completed
    ensures var w1 := Step(w, confirm, id, clock).0;
            w1.pending == None && Step(w1, confirm, id2, clock2).0 == w1
  {
  }

  /** A push that stopped early keeps the problem, so a later confirmation tries it again. */
  lemma AbortedKept(w: WorkerState, confirm: Message, id: Identity, clock: Clock)
    requires confirm.kind == UserConfirmedPush
    requires HandleConfirmedPush(w.store, w.pending, id, clock).1 != Completed
    ensures Step(w, confirm, id, clock).0.pending == w.pending
  {
  }

  /** The effects of a session are those of its messages, in order. */
  lemma {:induction false} RunAppend(w: WorkerState, a: seq<Event>, b: seq<Event>)
    ensures var (w1, fx1) := Run(w, a);
            var (w2, fx2) := Run(w1, b);
            Run(w, a + b) == (w2, fx1 + fx2)
    decreases |a|
  {
    if a == [] {
      assert a + b == b;
      var (w2, fx2) := Run(w, b);
      assert [] + fx2 == fx2;
    } else {
      assert (a + b)[0] == a[0];
      assert (a + b)[1..] == a[1..] + b;
      var (w1, _, fx) := Step(w, a[0].msg, a[0].id, a[0].clock);
      RunAppend(w1, a[1..], b);
      var (wa, more) := Run(w1, a[1..]);
      var (wb, fx2) := Run(wa, b);
      assert Run(w, a) == (wa, fx + more);
      assert Run(w, a + b) == (wb, fx + (more + fx2));
      assert fx + (more + fx2) == (fx + more) + fx2;
    }
  }

  /** Messages that neither confirm nor accept leave a slot it holds empty or as it was. */
  lemma {:induction false} RunWithoutAccepted(w: WorkerState, evs: seq<Event>)
    requires forall i :: 0 <= i < |evs| ==> evs[i].msg.kind != LeetcodeAccepted
    ensures var w' := Run(w, evs).0;
            w'.pending == None || w'.pending == w.pending
    decreases |evs|
  {
    if evs != [] {
      var w1 := Step(w, evs[0].msg, evs[0].id, evs[0].clock).0;
      assert w1.pending == None || w1.pending == w.pending;
      RunWithoutAccepted(w1, evs[1..]);
    }
  }

  /** Without a confirmation the repository is never touched, however many messages arrive. */
  lemma {:induction false} RunWithoutConfirm(w: WorkerState, evs: seq<Event>)
    requires forall i :: 0 <= i < |evs| ==> evs[i].msg.kind != UserConfirmedPush
    ensures Run(w, evs).0.store == w.store
    decreases |evs|
  {
    if evs != [] {
      StepStoreOnlyOnPush(w, evs[0].msg, evs[0].id, evs[0].clock);
      RunWithoutConfirm(Step(w, evs[0].msg, evs[0].id, evs[0].clock).0, evs[1..]);
    }
  }

  // ---- the worker as an object ----

  class Worker {
    var pending: Option<Problem>
    var effects: seq<Effect>
    const remote: Remote

    function State(): WorkerState
      reads this, remote
    {
      WorkerState(pending, remote.State())
    }

    /** The worker as it starts: an empty slot, nothing asked of the browser yet. */
    constructor (r: Remote)
      ensures remote == r && pending == None && effects == []
    {
      remote := r;
      pending := None;
      effects := [];
    }

    /** `uploadFile`: the read for the sha, then the write, whose answer is not looked at. */
    method UploadFile(path: string, content: string, isBinary: bool)
      modifies remote
      ensures remote.State() == Push.UploadFile(old(remote.State()), path, content, isBinary)
    {
      var existing := remote.GetContents(path);
      var sha := if existing.Some? then Some(existing.value.sha) else None;
      var _ := remote.PutContents(path, "Update " + path, Push.UploadBody(content, isBinary), sha);
    }

    /** `ensureRepo`: create and seed the repository only when the lookup answers 404. */
    method EnsureRepo(date: string) returns (flow: Push.Flow)
      modifies remote
      ensures (remote.State(), flow) == Push.EnsureRepo(old(remote.State()), date)
    {
      var check := remote.LookupRepo();
      if check != NotFound {
        return Push.Done;
      }
      var create := remote.CreateRepo(Push.RepoName, Push.RepoDescription, false);
      if create != Ok {
        return Push.Threw(Push.RepoCreationFailed);
      }
      UploadFile(Push.ReadmePath, GenerateReadme(Default(), date), false);
      UploadFile(Push.StatsPath, Stringify(Default()), false);
      flow := Push.Done;
    }

    /** `getFileJSON`: `null` for a read that is not ok, else `JSON.parse(atob(content))`, which may throw. */
    method GetFileJson(path: string) returns (got: Push.FileJson)
      modifies remote
      ensures (remote.State(), got) == Push.GetFileJson(old(remote.State()), path)
    {
      var file := remote.GetContents(path);
      if file.None? {
        return Push.Missing;
      }
      var text := Base64.Atob(file.value.content);
      if text.None? {
        return Push.Unreadable(Push.InvalidBase64);
      }
      var parsed := Parse(text.value);
      if parsed.None? {
        return Push.Unreadable(Push.InvalidJson);
      }
      got := Push.Parsed(parsed.value);
    }

    /** `updateStats`: bump the stats read (or `DEFAULT_STATS`), write them, then the README. */
    method UpdateStats(diff: string, date: string) returns (flow: Push.Flow)
      modifies remote
      ensures (remote.State(), flow) == Push.UpdateStats(old(remote.State()), diff, date)
    {
      var got := GetFileJson(Push.StatsPath);
      if got.Unreadable? {
        return Push.Threw(got.failure);
      }
      var stats := if got.Parsed? then got.stats else Default();
      stats := Bump(stats, diff);
      UploadFile(Push.StatsPath, Stringify(stats), false);
      UploadFile(Push.ReadmePath, GenerateReadme(stats, date), false);
      flow := Push.Done;
    }

    /** One file of the problem's folder. */
    method UploadArtifact(base: string, a: Artifact)
      modifies remote
      ensures remote.State() == UploadIf(old(remote.State()), true, base, a)
    {
      UploadFile(FilePath(base, a.name), a.content, a.isBinary);
    }

    /** The files of the problem's folder, in the handler's order, each optional one under its `if`. */
    method UploadArtifacts(base: string, p: Problem, diff: string, isoDate: string)
      requires base == BasePath(diff, p.slug)
      modifies remote
      ensures remote.State() == UploadAll(old(remote.State()), Artifacts(p, diff, isoDate))
    {
      ArtifactsInOrder(remote.State(), p, diff, isoDate);
      UploadArtifact(base, MetaFile(p, diff, isoDate));
      if Truthy(p.questionHtml) {
        UploadArtifact(base, QuestionFile(p));
      }
      if Truthy(p.code) {
        UploadArtifact(base, SolutionFile(p));
      }
      if Truthy(p.screenshot) {
        UploadArtifact(base, ScreenshotFile(p));
      }
    }

    /** The body of `handleConfirmedPush` past its early returns; an exception ends it where it is thrown. */
    method RunPush(p: Problem, clock: Clock) returns (out: PushOutcome)
      modifies remote
      ensures (remote.State(), out) == Confirm.RunPush(old(remote.State()), PushArtifacts(p, clock), NormalizeDifficulty(p.difficulty), clock.localeDate)
    {
      var diff := NormalizeDifficulty(p.difficulty);
      var base := BasePath(diff, p.slug);
      var repo := EnsureRepo(clock.localeDate);
      if repo.Threw? {
        return Aborted(repo.failure);
      }
      UploadArtifacts(base, p, diff, clock.isoDate);
      var stats := UpdateStats(diff, clock.localeDate);
      if stats.Threw? {
        return Aborted(stats.failure);
      }
      out := Completed;
    }

    /** `pendingProblem = null` once a push has run to its end. */
    method ClearSlotIf(done: bool)
      modifies this
      ensures pending == (if done then None else old(pending))
      ensures effects == old(effects)
    {
      if done {
        pending := None;
      }
    }

    /**
     * `handleConfirmedPush`: return early without a problem or an
     * identity; otherwise push it and, when the push ran to its end, empty
     * the slot.  An exception leaves the slot as it was.
     */
    method HandleConfirmedPush(id: Identity, clock: Clock) returns (out: PushOutcome)
      modifies this, remote
      ensures (remote.State(), out) == Confirm.HandleConfirmedPush(old(remote.State()), old(pending), id, clock)
      ensures pending == (if out == Completed then None else old(pending))
      ensures effects == old(effects)
    {
      if pending.None? || !Truthy(id.token) || !Truthy(id.username) {
        return Skipped;
      }
      out := RunPush(pending.value, clock);
      ClearSlotIf(out == Completed);
    }

    /** The listener: one message, with the identity and the date it is handled with. */
    method OnMessage(msg: Message, id: Identity, clock: Clock) returns (reply: Reply)
      modifies this, remote
      ensures var (w', r, fx) := Step(old(State()), msg, id, clock);
              State() == w' && reply == r && effects == old(effects) + fx
    {
      reply := NoReply;
      if msg.kind == LoginGithub {
        effects := effects + [StartOAuth];
        return;
      }
      if msg.kind == LeetcodeAccepted {
        pending := msg.payload;
        effects := effects + [OpenPopup];
        return;
      }
      if msg.kind == GetPendingProblem {
        reply := Reply(pending);
        return;
      }
      if msg.kind == UserConfirmedPush {
        var _ := HandleConfirmedPush(id, clock);
        return;
      }
      if msg.kind == UserDeniedPush {
        pending := None;
      }
    }
  }
}
