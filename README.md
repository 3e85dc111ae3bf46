# Plag-Detector skip/cheat pipeline, in Dafny

This project models the core of Plag-Detector, a tool that looks at a Codeforces
user's public submission history and flags contests that look "cheated". A
contest is flagged when the user has a submission judged `SKIPPED` in it and has
no `OK` or `PARTIAL` submission at or before the contest's end
(`startTime + duration`, inclusive).

The pipeline has two stages.

- **Grouper** (`processUserData`). It takes a `user.status` response and buckets
  the submissions by `contestId` in a dictionary. Each contest keeps all of its
  submissions as `{submissionId, verdict, time}`, in input order. The grouper
  returns the contests that saw a `"SKIPPED"` verdict. A null or non-`"OK"`
  response gives `[]`. The function is the same code, up to formatting and quote
  style, in `React-Webpage/src/App.jsx`, `index.js` and `dynamic/server.js`, so it
  is modelled once, in module
  `Grouper`. The result comes from `Object.values`, which lists integer-like
  keys in ascending order, so the groups come out in ascending `contestId`.
  `Grouper.SkippedGroups` states the result declaratively.
  `Grouper.ProcessUserData`, the dictionary-building loop, is proved equal to it.
- **Classifier**. `processUserResults` in `App.jsx` and `processUsers` in
  `dynamic/server.js` and `time.js` (the latter two are the same code up to logging) look up each
  skipped contest in the contest registry with `Array.find`. That is the first
  entry with an equal id; modelled as `Classifier.Find` over a sequence. A
  contest the registry lacks is dropped. Any other contest becomes
  `{contestId, cheated}`. `Classifier.Verdicts` is the specification.
  `App.ProcessUserResults` scans every submission. `Batch.ProcessUsers` stops
  at the first evidence. Both are proved to compute `Verdicts`.
  `Batch.ProcessUsers` also fills the per-user counters. `noOfNonCheated` counts
  the non-cheated verdicts. `noOfCheated` is `skippedContests.length - noOfNonCheated`,
  so skipped contests missing from the registry count as cheated, and
  `noOfCheated + noOfNonCheated` equals the number of skipped contests, not the
  number of verdicts (`Batch.ReportCounters`, `Scenarios.UnregisteredCountedAsCheated`).
  The `noOfSkipped` field of each result stays 0; only a local counter of that
  name is incremented.

`App.UserList` models the page state that `handleAddUserId` updates: the text box,
`userIds` and `results`. The handle is trimmed (`String.prototype.trim`, modelled by
`App.Trim`). It is ignored when empty and refused when already listed. When the
fetch returned null it is refused too. Otherwise the handle and its card are
prepended, so the list stays free of duplicates. The card's badge and colour are
`App.Badge` and `App.CardIsRed`.

The fetched response and the contest registry are parameters. All functions are
pure, so running the pipeline twice on the same inputs gives the same report.

Files: `codeforces.dfy` (shared data), `grouper.dfy`, `classifier.dfy`,
`batch.dfy`, `app.dfy`, `scenarios.dfy` (worked examples).

## Model

| member | source | states |
|---|---|---|
| `Grouper.ProcessUserData` | React-Webpage/src/App.jsx:66-92 | the dictionary-building loop, then `Object.values`/`filter`/`map`, returns exactly `SkippedGroups(data)`; `[]` for a null or non-"OK" response |
| `Grouper.SkippedGroups` | React-Webpage/src/App.jsx:66-92 | the declarative result of the grouper: `[]` for a null or non-"OK" response, otherwise one `{contestId, submissions}` per contest with a "SKIPPED" submission, in ascending contest id, each with all of that contest's records |
| `Grouper.ObjectValues` | React-Webpage/src/App.jsx:87 | `Object.values(contests)`: one entry per key, visited in ascending key order |
| `Grouper.KeepSkipped` | React-Webpage/src/App.jsx:88-89 | `filter(c => c.hasSkipped)` then `map` to `{contestId, submissions}`: keeps the flagged entries in order and drops the flag; never longer than its input |
| `Grouper.AscendingKeys` | React-Webpage/src/App.jsx:87 | the key order of `Object.values` on integer-like keys: strictly ascending, containing exactly the dictionary's keys |
| `Grouper.FromDictionary` | dynamic/server.js:44-46 | a dictionary holding each contest's full record list and skip flag, read back in key order and filtered on `hasSkipped`, gives one group per skipped contest in ascending id |
| `Grouper.EveryGroupSkipped` | index.js:31-37 | every returned group contains a submission whose verdict is exactly "SKIPPED" |
| `Grouper.SkippedGroupsShape` | dynamic/server.js:24-48 | for an "OK" response, a contest is returned iff it has a "SKIPPED" submission; ids are strictly ascending, hence pairwise distinct; each group carries all submissions to its contest, not only the skipped ones |
| `Grouper.RecordsAppend` | index.js:26-30 | a contest's records are the copies `{submissionId, verdict, time}` kept in input order: the records of a concatenation are the concatenation of the records |
| `Grouper.NoSkipNoGroups` | React-Webpage/src/App.jsx:82-89 | a response without any "SKIPPED" verdict yields no groups |
| `Grouper.TotalSubmissionsKept` | index.js:18-38 | the groups hold, between them, exactly as many submissions as the input has in contests with a skip |
| `Classifier.ContestEnd` | React-Webpage/src/App.jsx:102 | the contest's end time `startTime + duration` |
| `Classifier.InWindow` | React-Webpage/src/App.jsx:106-109 | a submission is evidence when its verdict is "OK" or "PARTIAL" and its time is at most the end time (inclusive) |
| `Classifier.Cheated` | time.js:21-34 | a contest stays cheated exactly when none of its submissions is in-window evidence |
| `Classifier.Classify` | dynamic/server.js:77-99 | one skipped contest gives no verdict when the registry lacks it, else `{contestId, cheated}` under the first matching entry |
| `Classifier.Verdicts` | React-Webpage/src/App.jsx:97-116 | the reference list of verdicts: each skipped contest's `Classify` result, concatenated in input order; both loops are proved to compute it |
| `Classifier.Find` | React-Webpage/src/App.jsx:98-100 | `Array.find` with `===`: the first registry entry with the id, or none exactly when no entry has it |
| `Classifier.CountCheated` | React-Webpage/src/App.jsx:164-165 | `filter(r => r.cheated).length` is at most the number of verdicts |
| `Classifier.CountNonCheated` | dynamic/server.js:94 | the count of verdicts with `cheated` false is at most the number of verdicts |
| `Classifier.CountsPartition` | React-Webpage/src/App.jsx:163-167 | cheated and non-cheated verdicts add up to all verdicts |
| `Classifier.VerdictsLength` | React-Webpage/src/App.jsx:97-116 | one verdict per skipped contest found in the registry, so never more verdicts than skipped contests |
| `Classifier.VerdictsAppend` | React-Webpage/src/App.jsx:97 | verdicts come out in the order of the skipped contests (the list of verdicts of a concatenation is the concatenation) |
| `Classifier.VerdictsSound` | React-Webpage/src/App.jsx:101-114 | each verdict belongs to a registered skipped contest, and `cheated` holds iff no submission is "OK"/"PARTIAL" with `time <= startTime + duration` of the first matching entry |
| `Classifier.VerdictsComplete` | dynamic/server.js:76-100 | every skipped contest found in the registry receives its verdict |
| `Classifier.UnregisteredOmitted` | time.js:19-20 | a contest id absent from the registry never appears among the verdicts |
| `App.ProcessUserResults` | React-Webpage/src/App.jsx:94-119 | the full-scan loop returns exactly `Verdicts(skippedContests, contests)` |
| `App.VerdictsOnlyForSkippedContests` | React-Webpage/src/App.jsx:36-40 | after grouping and classifying a fetched response, every contest with a verdict had a "SKIPPED" submission |
| `App.Trim` | React-Webpage/src/App.jsx:29 | `userId.trim()`: leading whitespace removed, then trailing whitespace removed (properties in `App.TrimSpec`) |
| `App.TrimStartSpec` | React-Webpage/src/App.jsx:29 | leading trim removes a whitespace-only prefix and leaves a suffix that does not start with whitespace |
| `App.TrimEndSpec` | React-Webpage/src/App.jsx:29 | trailing trim removes a whitespace-only suffix and leaves a prefix that does not end with whitespace |
| `App.TrimSpec` | React-Webpage/src/App.jsx:29 | `trim()` yields a slice of the input with only whitespace around it and none at either end |
| `App.Badge` | React-Webpage/src/App.jsx:161-167 | the badge is (cheated verdicts, all verdicts), numerator at most denominator |
| `App.CardIsRed` | React-Webpage/src/App.jsx:153-157 | the card is red when `processedResults.some(r => r.cheated)` |
| `App.CardRedIffBadgePositive` | React-Webpage/src/App.jsx:153-167 | the card is red (`some(r => r.cheated)`) exactly when the badge's numerator is non-zero |
| `App.SomeCheatedIffCount` | React-Webpage/src/App.jsx:154 | some verdict is cheated iff the cheated count is positive |
| `App.PrependKeepsDistinct` | React-Webpage/src/App.jsx:30-41 | prepending a handle not yet listed keeps the handle list duplicate-free |
| `App.UserList.constructor` | React-Webpage/src/App.jsx:8-16 | an empty page: empty text box, no handles, no cards |
| `App.UserList.AddUserId` | React-Webpage/src/App.jsx:28-51 | empty trimmed handle: nothing changes; listed handle or null fetch: nothing changes and the matching error is reported; otherwise the trimmed handle and its card `{userID, Verdicts(SkippedGroups(data), contests)}` are prepended and the text box is cleared; handles stay distinct and aligned with the cards |
| `Batch.IsReportFor` | dynamic/server.js:70-103 | what a user's result holds: its `userID`, `noOfSkipped` 0, `contests` = `Verdicts` of its skipped contests, `noOfNonCheated` = the non-cheated verdicts, `noOfCheated` = `skippedContests.length` minus `noOfNonCheated` |
| `Batch.ProcessUsers` | dynamic/server.js:65-108 | one result per user, in order, with the user's id, `noOfSkipped` 0, the verdicts of its registered skipped contests (the submission scan stops at the first evidence with the same outcome as a full scan), `noOfNonCheated` = non-cheated verdicts, `noOfCheated` = skipped contests minus `noOfNonCheated` |
| `Batch.ProcessUser` | dynamic/server.js:68-105 | one user's report: `IsReportFor` the user, its registered skipped contests and counters |
| `Batch.ScanUntilEvidence` | time.js:24-34 | the scan that breaks at the first in-window "OK"/"PARTIAL" returns `cheated` exactly when no submission is in-window evidence, the same answer as a full scan |
| `Batch.ReportCounters` | time.js:36-42 | `noOfNonCheated <= contests.length <= skippedContests.length`; the two counters add to `skippedContests.length`; `noOfCheated` = cheated verdicts + unregistered skipped contests |
| `Batch.CheatedCountExactIffAllRegistered` | dynamic/server.js:103 | `noOfCheated` equals the number of cheated verdicts iff every skipped contest is in the registry |
| `Scenarios.LoneSkipIsCheated` | React-Webpage/src/App.jsx:102-114 | a lone skip in a registered contest is flagged cheated |
| `Scenarios.InWindowAcceptClears` | React-Webpage/src/App.jsx:106-110 | an "OK" at or before the end clears the flag |
| `Scenarios.AcceptAtEndSecondClears` | time.js:30 | an "OK" exactly at `startTime + duration` still clears the flag (inclusive bound) |
| `Scenarios.LateAcceptStaysCheated` | dynamic/server.js:85-88 | an "OK" after the end leaves the contest flagged |
| `Scenarios.UnregisteredCountedAsCheated` | time.js:42 | a skipped contest missing from the registry gets no verdict but is counted in `noOfCheated` |

## Left out

- Network fetches (`fetchData`, `getUserData`, `getUsersData`) are I/O. The fetched response is a parameter, with `None` for null.
- The harvesting loops of `index.js` `main` and `getUsersData`, and the hard-coded handle lists, are also left out. They only pair each fetched handle with its grouped contests.
- The Express route, `app.listen`, `fs` reads and writes, `localStorage`, React hooks, JSX rendering, the loading flag, `handleCardClick` and `console.log` are left out as UI and I/O. The initial state restored from `localStorage` is not modelled; `App.UserList.constructor` starts empty.
- Toast messages are reported as an `AddOutcome` value instead of being shown.
- `handleAddUserId` is asynchronous. Two overlapping calls could both read the same stale `userIds`; the model treats each call as atomic.
- temp.js (HTML scraping) and script.py (spreadsheet merge) are not part of this model.
- Grouper.AscendingKeys: contest ids are `nat`. Keys that are not array indices would be listed in insertion order instead: ids of 2^32 − 1 or more, negative ids, or an `undefined` contestId.
- JavaScript dynamic values are not modelled. This covers a missing `verdict`, a missing `startTime`/`duration` (which gives `NaN`, so the contest stays flagged rather than being treated as not found), and a registry that stores ids as strings (`===` would then never match).
- Integers are unbounded. JavaScript numbers lose precision above 2^53; this does not matter for Unix-second times.
- App.Trim: characters are Unicode scalar values. JavaScript strings are UTF-16 code units; lone surrogates are not modelled.
