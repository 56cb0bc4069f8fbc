# LeetCode tracker extension: a Dafny model

This project models the core of a browser extension. The extension watches a
LeetCode problem page. When a submission is accepted, it sends the problem to
its background worker. Once the user confirms, the worker publishes the
problem into the user's GitHub repository `leetcode-tracker`.

The model has two parts: the background worker (`fe/background.js`) and the
content script (`fe/content.js`).

**Background worker**
- The pure helpers:
  - `normalizeDifficulty`;
  - `base64EncodeUnicode`;
  - `stripBase64Prefix`;
  - the language-to-extension table;
  - `generateReadme`.
- The remote steps:
  - `uploadFile`: read the sha, then write;
  - `ensureRepo`: look the repository up, and on a 404 create and seed it;
  - `getFileJSON`: `JSON.parse(atob(content))`;
  - `updateStats`: bump the counters, then write the stats and the README.
- `handleConfirmedPush`, which writes the problem as
  `problems/<Difficulty>/<slug>/{meta.json, question.html, solution.<ext>, screenshot.png}`
  and then updates the stats.
- The `pendingProblem` slot and the runtime message listener that drives it.

**Content script**
- `getSlug`, the regular expression match on the page URL.
- `getBaseUrl`, and the round trip between the two.
- The mutation observer:
  - its one-shot `alreadyHandled` guard;
  - the order of its early returns;
  - the payload it sends, in which the question's `content` becomes
    `questionHtml`.

Each part has two forms:
- **Pure logic** is written as functions over values, and the properties are
  lemmas about them:
  - `Helpers`;
  - `Push`;
  - `Confirm`;
  - `Background.Step` and `Background.Run`;
  - `ContentScript.Observe`.
- **Code that changes state** is written as classes whose methods are proved
  to equal those functions:
  - the worker with its slot (`Background.Worker`);
  - the repository (`RemoteStore.Remote`);
  - the watcher with its flag (`ContentScript.Watcher`).

The text layers the pipeline relies on are modelled as far as the core uses them:
- **UTF-8 and URI escapes:** `encodeURIComponent` followed by the `%XX`
  replacement (module `Utf8`).
- **Base64:** `btoa` and `atob` (modules `Bytes` and `Base64`).
- **JSON:**
  - `JSON.stringify(…, null, 2)` of the flat stats object and of the
    `meta.json` record;
  - `JSON.parse` of the stats object (modules `Json`, `StatsDoc` and `MetaDoc`).
- **String methods:** `trim`, `toUpperCase` and `toLowerCase` (module `JsText`).

**The repository.** It is a value (`RemoteStore.Store`) holding the following:
- whether it exists;
- its files, each with content and a sha;
- the log of every call made, with the status it got;
- a set of log positions whose calls fail with a server error.

Which calls fail is fixed in advance, so every run is determined by its
inputs, yet every pattern of failures can be stated.

A write is refused in three cases:
- the repository is missing;
- the content is not base64;
- the sha the write carries is not the current one.

These are the conditions GitHub's contents API enforces.

Where the code's behaviour differs from what its comments and names suggest,
the model follows the code:
- A stats file that cannot be decoded or parsed makes `getFileJSON` throw, so
  the push aborts after the problem's files are written. It is not reset to
  zero.
- The **lookup** in `ensureRepo` treats every status other than 404 as an
  existing repository, including server errors.
- `uploadFile` never checks whether its write succeeded.
- The question is always written as `question.html`.
- Two pushes in a row are not idempotent: each one bumps the counters.
- `getSlug` returns the capture at the leftmost `/problems/` that is followed
  by a character other than `/`. This is not necessarily the first
  `/problems/` in the URL.

## Model

| member | source | states |
|---|---|---|
| Helpers.NormalizeDifficulty | fe/background.js:18-21 | the normalized difficulty is never empty |
| Helpers.NormalizeCharacterized | fe/background.js:18-21 | a falsy difficulty gives "Easy"; a truthy one gives a capitalized word equal to the input up to case |
| Helpers.NormalizeUnique | fe/background.js:18-21 | any capitalized word that equals the input up to case is the normalized difficulty |
| Helpers.NormalizeIdempotent | fe/background.js:18-21 | normalizing twice is the same as normalizing once |
| Helpers.NormalizeExamples | fe/background.js:18-21 | "easy", "MEDIUM" and "hard" become "Easy", "Medium" and "Hard"; the empty string and a missing value become "Easy" |
| Helpers.Base64EncodeUnicode | fe/background.js:23-30 | the result is the base64 of the string's UTF-8 bytes |
| Helpers.AtobOfEncodeUnicode | fe/background.js:23-30 | `atob` of the encoding gives back the UTF-8 bytes as a binary string |
| Helpers.AtobOfEncodeAscii | fe/background.js:23-30 | for ASCII text, `atob` of the encoding gives back the text itself |
| Helpers.StripBase64Prefix | fe/background.js:32-34 | the PNG data-URL prefix is removed when the string starts with it; otherwise the string is unchanged |
| Helpers.StripPrefixOnce | fe/background.js:32-34 | prefix plus payload gives back the payload |
| Helpers.StripPrefixTwice | fe/background.js:32-34 | the pattern is anchored and not global: only one copy of the prefix is removed |
| Helpers.ExtensionFor | fe/background.js:167-177 | the extension is "txt" or one of the table's values |
| Helpers.ExtensionCaseInsensitive | fe/background.js:176-177 | languages that agree up to case get the same extension |
| Helpers.ExtensionTable | fe/background.js:167-177 | a listed language gets its table entry; a language whose lower case is not a key falls back to "txt" |
| Helpers.ExtensionSafe | fe/background.js:176-182 | the extension is non-empty and holds neither `/` nor `.`, so `solution.<ext>` is a single file name |
| Helpers.ExtensionExamples | fe/background.js:167-177 | Java gives java, Python gives py and TypeScript gives ts; C++, Python3 and a missing language give txt |
| Helpers.ReadmeBodyEnds | fe/background.js:345-361 | the template body starts with `#` and ends with `_`, so `trim` removes only the outer newlines |
| Helpers.GenerateReadme | fe/background.js:345-361 | the trimmed README shows the document's Easy, Medium, Hard and Total values and the date |
| Helpers.ReadmeDependsOnCounts | fe/background.js:355-358 | two documents with the same four counters give the same README |
| Helpers.ReadmeOfDefault | fe/background.js:8-13 | the README of `DEFAULT_STATS` shows four zeros |
| StatsDoc.Get | fe/background.js:308-309 | reading an own property gives `undefined` exactly when the key is absent (an absent `__proto__` reads the inherited prototype, which `++` turns into NaN just like `undefined`) |
| StatsDoc.GetSet | fe/background.js:300-309 | after an own-property assignment (what `JSON.parse` creates, and what `stats[k] = v` does for every `k` but an absent `__proto__`), the assigned key reads the new value and every other key reads as before |
| StatsDoc.AssignGet | fe/background.js:308-309 | `stats[k] = v` as the statement does it: the key reads the new value when it lands on an own property; an absent `__proto__` goes to the inherited setter, which ignores a number or NaN, so the document is unchanged |
| StatsDoc.SetAbsent | fe/background.js:300-308 | an own-property assignment of a new key appends it after the existing keys |
| StatsDoc.SetKeys | fe/background.js:300-309 | an own-property assignment keeps the key order and adds a new key at the end |
| StatsDoc.Default | fe/background.js:8-13 | `DEFAULT_STATS` is Easy, Medium, Hard and Total, in that order, all zero |
| StatsDoc.BumpCounts | fe/background.js:308-309 | `stats[diff]++` then `stats.Total++`: both counters go up by one (Total by two when diff is "Total"); other keys are unchanged; a missing or NaN counter becomes NaN, and a `null` counter (how JSON carries a NaN written earlier) becomes 1, as `null++` does; a `__proto__` difficulty with no own property adds no key and raises only Total |
| StatsDoc.BumpDefaultProto | fe/background.js:306-311 | a first push with difficulty `__proto__` writes `DEFAULT_STATS` with only Total at 1, and no `__proto__` key |
| StatsDoc.BumpBalanced | fe/background.js:308-309 | for the three real difficulties, a bump keeps Total equal to Easy + Medium + Hard |
| StatsDoc.BumpUnbalances | fe/background.js:308-309 | any other difficulty breaks that balance |
| StatsDoc.DefaultBalanced | fe/background.js:8-13 | `DEFAULT_STATS` is balanced |
| StatsDoc.ParseStringify | fe/background.js:300 | parsing `JSON.stringify(stats, null, 2)` gives the document back, with NaN read as null |
| StatsDoc.StringifyAscii | fe/background.js:311 | the stats text is ASCII when its keys are |
| StatsDoc.BumpPreservesKeys | fe/background.js:308-309 | a bump keeps the keys distinct and ASCII |
| StatsDoc.BumpDefault | fe/background.js:306-309 | one bump of `DEFAULT_STATS` survives the JSON round trip; a second bump keeps the balance |
| StatsDoc.CanonAllNum | fe/background.js:300 | a document of numbers survives the JSON round trip unchanged |
| Base64.Encode | fe/background.js:24 | `btoa` output has length 4·⌈n/3⌉ |
| Base64.DecodeEncode | fe/background.js:300 | decoding the encoding of any bytes gives them back |
| Base64.EncodeAlphabet | fe/background.js:24 | the encoding uses only the base64 alphabet and `=` |
| Base64.Btoa | fe/background.js:24 | `btoa` succeeds exactly on binary strings |
| Base64.Atob | fe/background.js:300 | `atob` yields a binary string |
| Base64.AtobBtoa | fe/background.js:24 | `atob(btoa(s))` gives `s` back |
| Bytes.BytesOfCharsOf | fe/background.js:24-28 | bytes read as characters and back are unchanged |
| Utf8.EncodeCharDecodes | fe/background.js:25 | each character's UTF-8 sequence is well formed and decodes to its code point |
| Utf8.EncodeAscii | fe/background.js:25-28 | ASCII text is its own UTF-8 |
| Utf8.ReplaceEscapesOfEncoded | fe/background.js:25-28 | replacing each `%XX` of `encodeURIComponent(s)` by its byte gives the UTF-8 of `s` |
| Json.ParseQuote | fe/background.js:300 | a quoted, escaped string parses back to itself |
| Json.ParseIntOfString | fe/background.js:300 | an integer's decimal text parses back to it |
| MetaDoc.ParseMetaText | fe/background.js:142-152 | the `meta.json` text of a record parses back to that record |
| MetaDoc.MetaTextInjective | fe/background.js:142-152 | different records give different `meta.json` texts |
| RemoteStore.CallsPreserveValid | fe/background.js:250-340 | no call leaves a missing repository holding files |
| RemoteStore.PutChangesOnePath | fe/background.js:328-339 | a write succeeds exactly when the repository exists, the content is base64 and the sha is current; only then does one path change |
| RemoteStore.CreateOnce | fe/background.js:258-271 | after a successful create, every further create fails |
| RemoteStore.LogAppend | fe/background.js:250-340 | each call adds its path to the writes, or one to the creations, as its kind says |
| RemoteStore.Remote.LookupRepo | fe/background.js:252-256 | the mutable repository changes as the lookup function says |
| RemoteStore.Remote.CreateRepo | fe/background.js:258-271 | the mutable repository changes as the create function says |
| RemoteStore.Remote.GetContents | fe/background.js:322-326 | the mutable repository changes as the read function says |
| RemoteStore.Remote.PutContents | fe/background.js:328-339 | the mutable repository changes as the write function says |
| Push.UploadFileCalls | fe/background.js:318-340 | exactly two calls: a read of the path, then a write of the encoded content with message "Update <path>", carrying a sha exactly when the read succeeded |
| Push.UploadFilePuts | fe/background.js:318-340 | one upload records one write of its path and no creation |
| Push.UploadFileFrame | fe/background.js:318-340 | no other path changes; the path keeps its file or holds the new one |
| Push.UploadFileStores | fe/background.js:318-340 | on a reachable repository the file holds the sent content under a fresh sha |
| Push.UploadFileReadsBack | fe/background.js:318-340 | a text upload reads back, through `atob`, as its UTF-8 bytes |
| Push.UploadFileLostUpdate | fe/background.js:326-339 | a failed read of an existing file leaves the write without a sha; the write is refused unnoticed and the file keeps its old content |
| Push.UploadTwoStores | fe/background.js:318-340 | two text uploads to distinct paths store both, under consecutive shas, and keep every other file |
| Push.EnsureRepoPresent | fe/background.js:250-256 | any answer but 404 returns after the one lookup, without creating or writing |
| Push.EnsureRepoCreateFails | fe/background.js:258-271 | a failed create after a 404 throws "Repo creation failed" before anything is written |
| Push.EnsureRepoSeeds | fe/background.js:258-286 | a created repository holds exactly the README with zero counts, then the zeroed stats, under consecutive shas |
| Push.EnsureRepoPuts | fe/background.js:250-286 | the call completes unless the create fails; it seeds README then stats, and creates once, exactly when the lookup answered 404 and the create succeeded |
| Push.EnsureRepoCalls | fe/background.js:250-286 | one call when the repository looks present, two when the create fails, six with the seeding |
| Push.EnsureRepoFrame | fe/background.js:250-286 | no file other than the stats and the README is touched |
| Push.EnsureRepoTwice | fe/background.js:250-286 | two checks in a row create the repository at most once |
| Push.GetFileJsonEffect | fe/background.js:291-301 | only the read is logged; the result is `null` exactly when the read is not ok |
| Push.GetFileJsonSameFile | fe/background.js:291-301 | the result depends only on the file read |
| Push.GetFileJsonRoundTrip | fe/background.js:291-301 | a stats document with distinct ASCII keys written by `uploadFile` reads back as that document, with NaN read as null |
| Push.UpdateStatsEffect | fe/background.js:303-313 | an unreadable stats file throws before any write; otherwise the stats are written, then the README |
| Push.UpdateStatsWrites | fe/background.js:303-313 | with no failing call, the stats file holds the bumped document and the README shows it, and every other file is kept |
| Push.UpdateStatsFrame | fe/background.js:303-313 | no other file is touched, whatever the calls answer |
| Push.UpdateStatsFromDefault | fe/background.js:305-306 | a read that is not ok starts again from `DEFAULT_STATS` |
| Push.UpdateStatsReadBack | fe/background.js:303-313 | reading the stats back after an update gives the bumped document |
| Push.UpdateStatsTwice | fe/background.js:303-313 | two updates accumulate: the second bumps what the first wrote, and the balance holds |
| Confirm.PathsOf | fe/background.js:137-196 | the paths of the uploads, in order |
| Confirm.UploadAllShape | fe/background.js:137-196 | the uploads make two calls each; the repository is never created or dropped |
| Confirm.UploadAllLog | fe/background.js:137-196 | the uploads write their paths, in order, and create nothing |
| Confirm.UploadAllFrame | fe/background.js:137-196 | a path no upload names keeps its file |
| Confirm.UploadAllAbsent | fe/background.js:137-196 | nothing is written into a missing repository |
| Confirm.UploadAllStores | fe/background.js:137-196 | with no failing call, each of the distinct uploads leaves its file holding what was sent, under consecutive shas |
| Confirm.InFolder | fe/background.js:133-192 | each file is placed under the problem's folder |
| Confirm.FilePathInjective | fe/background.js:133 | within a folder, distinct names give distinct paths |
| Confirm.FilePathNotTop | fe/background.js:133 | no path under `problems/` is the stats file or the README |
| Confirm.ArtifactMembers | fe/background.js:137-196 | the files of a push: `meta.json` first, and each optional file exactly when its field is truthy |
| Confirm.ArtifactPathsDistinct | fe/background.js:137-196 | no path is written twice in one push |
| Confirm.ArtifactPathsPresent | fe/background.js:137-196 | `meta.json` holds the title, normalized difficulty, topics, URL and ISO date; every truthy field's file is written |
| Confirm.ArtifactPathsWithin | fe/background.js:137-196 | no other file is written |
| Confirm.ArtifactsEncodable | fe/background.js:187-196 | only the screenshot is sent as it is; everything else is text encoded by `base64EncodeUnicode` |
| Confirm.ArtifactsInOrder | fe/background.js:137-196 | uploading the list is the handler's chain of `if`s, in the handler's order |
| Confirm.UploadsKeepStats | fe/background.js:137-199 | the uploads leave the stats file alone, so the update reads what was already there |
| Confirm.UploadsThenStatsFiles | fe/background.js:137-199 | after the uploads and the update, every uploaded file still holds what was sent |
| Confirm.UploadsThenStatsCounters | fe/background.js:137-199 | the update completes, writing the bumped stats and their README under the next shas |
| Confirm.UploadsThenStatsFrame | fe/background.js:137-199 | any other path keeps its file |
| Confirm.RunPushPuts | fe/background.js:135-199 | the writes of a push, in order: the seeding, the uploads, then the stats and README; it stops before the uploads only when the create fails |
| Confirm.RunPushFrame | fe/background.js:135-199 | a push touches only its uploads, the stats file and the README |
| Confirm.RunPushSteps | fe/background.js:135-199 | once the repository check has not thrown, a push is the uploads followed by the stats update |
| Confirm.ExistingChecked | fe/background.js:250-256 | on an existing repository the check is one lookup, and the stats read the same before and after it |
| Confirm.SeededStats | fe/background.js:280-285 | a seeded repository's stats read back as `DEFAULT_STATS` |
| Confirm.RunPushExisting | fe/background.js:124-206 | into an existing repository with no failing call, a push completes: each file holds what was sent, and the stats are bumped once with the README showing them |
| Confirm.RunPushFirst | fe/background.js:124-206 | the first push creates and seeds the repository, stores the files after the two seeds, and counts this one problem |
| Confirm.RunPushLookupFault | fe/background.js:256 | a failed lookup of a missing repository counts as "exists": nothing is stored, yet the push completes |
| Confirm.RunPushCorruptStats | fe/background.js:198-205 | an unreadable stats file aborts the push after the uploads, leaving the stats untouched |
| Confirm.HandleConfirmedPush | fe/background.js:124-130 | the push is skipped exactly when there is no problem, no token or no username, and then nothing changes |
| Confirm.PushArtifactsFit | fe/background.js:132-196 | the uploads of a push have distinct paths, are encodable, and avoid the stats file and the README |
| Confirm.HandlePuts | fe/background.js:124-206 | a confirmed push writes, in order: the seeding of a new repository, the problem's files, then the stats and README |
| Confirm.HandleFrame | fe/background.js:124-206 | nothing outside the problem's folder is touched except the stats and README |
| Confirm.HandleIntoExisting | fe/background.js:124-206 | a push into an existing repository completes with each of the problem's files stored and the stats bumped for its difficulty |
| Confirm.HandleFirstPush | fe/background.js:124-206 | the first push creates and seeds the repository and counts this one problem |
| Confirm.HandleLookupFault | fe/background.js:250-256 | a failing lookup of a missing repository stores nothing, yet the push completes |
| Confirm.HandleCorruptStats | fe/background.js:198-205 | unreadable stats abort the push after the problem's files are stored; the stats file is unchanged |
| Background.StepLogin | fe/background.js:95-98 | `LOGIN_GITHUB` starts OAuth and changes nothing |
| Background.StepAccepted | fe/background.js:100-104 | `LEETCODE_ACCEPTED` puts the payload in the slot and opens the popup |
| Background.StepGetPending | fe/background.js:106-109 | `GET_PENDING_PROBLEM` answers with the slot and changes nothing |
| Background.StepConfirmed | fe/background.js:111-114 | `USER_CONFIRMED_PUSH` runs the push; the slot is emptied exactly when the push completed (or was already empty) |
| Background.StepDenied | fe/background.js:116-118 | `USER_DENIED_PUSH` empties the slot and leaves the repository alone |
| Background.StepOther | fe/background.js:92-119 | any other message type changes nothing |
| Background.StepStoreOnlyOnPush | fe/background.js:92-119 | only a confirmation touches the repository; only `GET_PENDING_PROBLEM` replies; only login and accepted problems have effects |
| Background.LastAcceptedWins | fe/background.js:100-109 | the popup sees the last accepted payload |
| Background.DeniedNotPushed | fe/background.js:116-126 | a confirmation right after a denial changes nothing |
| Background.CompletedOnce | fe/background.js:124-201 | a completed push is not repeated by a second confirmation |
| Background.AbortedKept | fe/background.js:201-205 | a push that did not complete keeps the problem in its slot |
| Background.RunAppend | fe/background.js:92-119 | a session's effects are those of its messages, in order |
| Background.RunWithoutAccepted | fe/background.js:92-119 | without `LEETCODE_ACCEPTED` the slot only ever keeps its value or becomes empty |
| Background.RunWithoutConfirm | fe/background.js:92-119 | without a confirmation the repository is never touched |
| Background.Worker.constructor | fe/background.js:39 | the worker starts with an empty slot and no effects |
| Background.Worker.UploadFile | fe/background.js:318-340 | the step-by-step upload changes the repository as `Push.UploadFile` says |
| Background.Worker.EnsureRepo | fe/background.js:250-286 | the step-by-step check changes the repository, and throws, as `Push.EnsureRepo` says |
| Background.Worker.GetFileJson | fe/background.js:291-301 | the step-by-step read returns what `Push.GetFileJson` says |
| Background.Worker.UpdateStats | fe/background.js:303-313 | the step-by-step update matches `Push.UpdateStats` |
| Background.Worker.UploadArtifact | fe/background.js:138-196 | one file of the problem's folder is uploaded |
| Background.Worker.UploadArtifacts | fe/background.js:137-196 | the chain of `if`s uploads exactly the push's list of files |
| Background.Worker.RunPush | fe/background.js:132-201 | the body past the early returns matches `Confirm.RunPush` |
| Background.Worker.ClearSlotIf | fe/background.js:201 | `pendingProblem = null` empties the slot when the push ran to its end and leaves it as it was otherwise |
| Background.Worker.HandleConfirmedPush | fe/background.js:124-206 | the handler matches `Confirm.HandleConfirmedPush`; the slot is cleared exactly when the push completed |
| Background.Worker.OnMessage | fe/background.js:92-119 | the listener changes the slot, the repository and the effects, and replies, exactly as `Background.Step` says |
| ContentScript.RunFrom | fe/content.js:12 | the greedy `[^/]+` run stays within the URL |
| ContentScript.RunFromIsRun | fe/content.js:12 | the run is slash-free and ends at a slash or at the end |
| ContentScript.FindFromFound | fe/content.js:12 | the search finds the leftmost match, or reports that there is none |
| ContentScript.GetSlugNone | fe/content.js:11-14 | `getSlug` is `null` exactly when the pattern matches nowhere |
| ContentScript.GetSlugFound | fe/content.js:11-14 | a slug that is found is the capture at the leftmost match |
| ContentScript.GetSlugOfCapture | fe/content.js:11-14 | the capture at the leftmost match is what `getSlug` returns |
| ContentScript.GetSlugOfBaseUrl | fe/content.js:11-18 | `getSlug(getBaseUrl(slug)) == slug` for every non-empty slash-free slug |
| ContentScript.ObserveHandled | fe/content.js:84 | once the page is handled, the callback does nothing |
| ContentScript.ObserveFlag | fe/content.js:86-95 | the flag is set exactly when the trimmed result reads "Accepted"; a message is sent only then |
| ContentScript.ObserveSends | fe/content.js:86-134 | a message is sent exactly when the page is accepted, has a slug and has a question |
| ContentScript.ObservePayload | fe/content.js:71-134 | the message is `LEETCODE_ACCEPTED` carrying the URL's slug, the canonical URL, the question's fields with `content` as `questionHtml`, the code, the trimmed language and the screenshot |
| ContentScript.ObserveAtMostOnce | fe/content.js:84-95 | at most one message per page, and none once the page is handled |
| ContentScript.ObserveAllHandled | fe/content.js:84 | after the flag is set, no mutation sends anything |
| ContentScript.QuestionWrittenIffContent | fe/background.js:155-163 | a sent payload's push writes `question.html` exactly when the question's HTML is truthy |
| ContentScript.Watcher.constructor | fe/content.js:5 | the watcher starts unhandled, with nothing sent |
| ContentScript.Watcher.OnMutation | fe/content.js:83-135 | the callback sets the flag and appends the message exactly as `ContentScript.Observe` says |

## Left out

**Login, identity and parts of the system outside the core**
- `startGithubOAuth` (fe/background.js:44-87) involves OAuth, a token exchange and browser storage. The model records only that `LOGIN_GITHUB` asks for the flow to start.
- `getGithubToken`, `getGithubUsername` and `fetchAndStoreGithubUser` read and write browser storage and call the GitHub user endpoint. The token and the username they resolve to are an input (`Confirm.Identity`).
- The username is not used to pick a repository: the model has one repository.
- The token exchange server (be/server.js) is not part of this model.
- The popup (fe/popup.js) is not part of this model. Its messages are inputs of the listener.

**The page**
- `fetchProblemMeta` fetches the problem page and parses `__NEXT_DATA__`. The DOM queries of the observer read the result node, the code and the language button. The model does neither: what they yield is a `Page` value.
- The question's title and topic names are assumed present as strings.
- `captureScreenshotFromBackground` sends `CAPTURE_SCREENSHOT`, which no listener in the background handles. The screenshot is an optional input of the page.

**Scheduling and time**
- `observer.disconnect()` is not modelled. The `alreadyHandled` flag, which the model keeps, already stops any further callback from acting.
- The observer callback and the push are asynchronous. Interleavings of two callbacks or of two pushes are not modelled. Neither is the read-then-write race on the stats file between two devices.
- Each message and mutation is handled to its end before the next.
- `new Date()` is not modelled: the ISO date and the locale date string are inputs (`Confirm.Clock`).

**HTTP and the GitHub API**
- HTTP is reduced to three answers: ok, 404, or any other failure.
- Which calls fail with a server-side error is fixed in advance by the store's set of failing log positions.
- A `fetch` that rejects with a network error is not modelled.
- `res.json()` of a successful read is taken to be the file's content and sha.
- GitHub's line wrapping of base64 content is not modelled: content reads back exactly as written.
- Push.UploadFile: a path is used as a literal key of the repository's files. The extension puts the path into the request URL unescaped (fe/background.js:293, 319), so a `?`, `#` or `%` in the slug is parsed as part of the URL.
  - `getSlug`'s `[^/]+` accepts these characters: the URL `…/problems/two-sum?envType=daily-question` gives the slug `two-sum?envType=daily-question`.
  - GitHub then sees the contents path `problems/Easy/two-sum` for every file of that push, so each upload overwrites the previous one.
  - The model instead stores four distinct files. Confirm.ArtifactPathsDistinct, Push.UploadFileStores, Push.UploadTwoStores, and the "each file holds what was sent" parts of Confirm.UploadAllStores, Confirm.UploadsThenStatsFiles, Confirm.RunPushExisting, Confirm.RunPushFirst, Confirm.HandleIntoExisting and Confirm.HandleFirstPush, hold only for slugs without `?`, `#` or `%`.

**Text functions**
- `toUpperCase` and `toLowerCase` map ASCII letters only. Other letters are left unchanged.
- `atob` accepts only canonical padded base64, without whitespace.
- Lone surrogates, which make `encodeURIComponent` throw, are not modelled: a string is a sequence of Unicode scalar values.
- `StatsDoc.Parse` reads the flat objects `JSON.stringify` writes, with values that are integers or `null`:
  - nested values, strings, booleans, fractions and exponents are reported as unparsable;
  - a number that `JSON.stringify` would write in exponent form (1e21 and above) is written out in full;
  - a parsed document that is `null` or another falsy JSON value is not modelled;
  - a truthy top-level value that is not an object (`[1]`, `5`, `"x"`, `true`) is accepted by `JSON.parse`, and the extension's push then completes; the model reports it as invalid JSON and the push stops;
  - a `\u` escape of a surrogate (a pair such as `\uD83D\uDE00`, or a lone one) is rejected by the model (json.dfy, `ParseStringBody`), while `JSON.parse` accepts it.
- StatsDoc.Set: a new key is always appended after the existing ones. A JavaScript object puts array-index keys (such as `"1"`) first, in ascending order, before its string keys. So for a difficulty like `"1"`, or a stats file holding a numeric key, the model writes the stats JSON with the keys in a different order than the extension does. The counters, and what each key reads, are the same either way.
- StatsDoc.Increment: counters are unbounded integers. In JavaScript they are doubles, and above 2^53 `n++` and `JSON.parse` lose precision; the model stays exact.
- `extMap`'s inherited properties are not modelled. A language such as `constructor` or `__proto__` would find an `Object.prototype` member instead of falling back to "txt".
