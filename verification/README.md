# Verified models of the IM.codes shared protocols

This project models, in Dafny, the parts of the IM.codes repository that carry real algorithms or state, and proves what they promise. Each module follows one source file (or two that belong together).

| module | source | subject |
|---|---|---|
| `Release` | `scripts/macos-remote-desktop-release-guard.ts` | publishing several directories as one transaction, on a file system that may fail at every step |
| `CronChain`, `CronControl` | `shared/cron-types.ts` | recovering the newest snapshot from a legacy stream; migrating cron registrations |
| `Notices` | `scripts/generate-macos-libwebrtc-notices.py` | printing, parsing and merging license notices |
| `Inbox` | `shared/core-lane-inbox.ts` | a write-ahead inbox: append-only log, replay, torn records, compaction |
| `Frames` | `shared/aidesk-local-ipc.ts` | length-prefixed frames decoded from arbitrary chunks |
| `Clock` | `shared/clock-sync.ts` | estimating the server clock from round trips |
| `BoundedJson`, `Canonical` | `shared/capability-management.ts` | bounded traversal of object graphs; canonical JSON and digest preimages |
| `Alias` | `shared/alias-types.ts`, `shared/alias-expand.ts` | finding alias markers and expanding them for agents |
| `Delegation` | `shared/agent-delegation.ts` | defanging envelope markers and reading back reply authority |
| `Governor` | `shared/aidesk-app-refresh.ts`, `src/node/macos-aidesk-app-refresh.ts` | deciding when the menu-bar app may be restarted |
| `Paths` | `shared/chat-local-path.ts` | lexical folding of paths |

`Results`, `Text`, `Lists`, `StringOrder`, `Json` and `Utf8` hold what these share: optional values, searching and splitting text, picking from lists, sorting by string keys, a JSON printer and parser that undo each other, and UTF-8.

`dafny verify dfyconfig.toml` checks the whole project.

## Conventions

- Text is a sequence of code points; what the code counts in UTF-16 units is counted in code points. NFC normalisation and the tables of letters and numbers are parameters.
- JSON is what `JSON.stringify` prints: no white space, and integers as the only numbers.
- Code that changes state step by step is a class or a method with loops, proved against a specification function or a declarative predicate; pure code is functions. Clocks, file contents, command output and Unicode tables are parameters.
- A file-system operation that fails changes nothing. In `Release` a fault oracle decides for every fallible operation whether it fails; the operations that undo a step and the clean-up do not fail. Removing a directory recursively removes its files one after the other, in any order, and then the directory; each of these states counts as seen.

## What the models show about the code

Some promises hold only under a condition. The code is modelled as it is, and the condition is proved to be exact.

- A growing cron stream that meets every threshold can go unrecognised, because the search prefers more snapshots to more growth (`CronChain.GrowingStreamMissed`: normalisation leaves the whole text alone). A cut is recognised exactly when some reading with the most snapshots grows enough (`CronChain.RecoveredIff`), and a stream of single-line snapshots is normalised to its newest snapshot exactly when it meets the thresholds (`CronChain.LineStreamNormalizes`).
- Registering a cron action twice gives the same action exactly when the first result holds no control block any more (`CronControl.RegisterAgain`).
- Replay neither truncates nor terminates a torn record, so the record appended next is lost together with it, exactly when something was left over (`Inbox.AppendAfterCrash`). Over whole histories of crashes and restarts a record survives exactly when its line is there in full, the append just before it ended with its newline, and so did its own unless nothing was appended since (`Inbox.Survives`, `Inbox.HistoryRecovers`). Replay also skips entries with an empty id (`Inbox.RunRecovers`).
- A push that meets a bad frame throws, and the good frames it had read before are lost; so what a stream with a bad frame returns depends on how it is cut: exactly the frames complete before the chunk in which the bad one shows (`Frames.BadFrameLosesItsChunk`).
- A printed notice file reads back exactly when its sections are good in the sense of `Notices.GoodSections` (`Notices.PrintThenParseIff`).
- `undefined` array items and `null` have different canonical forms and the same digest preimage (`Canonical.HolesPrintAsNull`; `Canonical.PayloadIsExact` says what the preimage tells apart).
- The comment at `shared/alias-expand.ts:151-152` says that a literal marker never reaches a shell. It can: a value may itself be a marker (`Alias.MarkerInValueIsDelivered`), an empty value may join the text around it to a marker (`Alias.EmptyValueJoinsMarker`), and a marker around a marker may become valid once the inner one is replaced (`Alias.NestedMarkerIsDelivered`). With values that are not empty and hold neither `;` nor `(`, an opening `;;(` is delivered exactly when the message has one that starts no valid marker (`Alias.OpeningDeliveredIff`; `Alias.MarkerDeliveredIff` gives the condition for valid markers), so a message without such openings delivers no marker (`Alias.NoMarkerIsDelivered`).
- Sanitising an alias value twice is not sanitising it once: the gate normalises before it strips, and stripping can leave text that is not normalised. The second pass gives the normalised first result, cut to the cap (normalising can lengthen it), so it changes nothing exactly when the first result is normalised, or fills the cap and normalising only appends to it (`Alias.SanitizeTwiceIff`; `Alias.SanitizeTwiceDiffers` and `Alias.SanitizeTwiceCuts` show the two ways it differs).
- A destination is not always seen as before, absent or complete: when a round fails behind a published one, the catch block removes the published destinations recursively, and each is then seen with every smaller number of its files. Before that rollback, and in every run without one, the three-way promise holds (`Release.Package` gives the exact condition, in terms of which operation fails; `Release.RollbackIsReachable` shows it is met, and `Release.ComponentsShow` that a removal shows whenever something is shipped beside the manifest). The final state is restored all the same.
- When the directory inside a new staging root cannot be made, the staging root is left behind, and only then; the directories around the destinations stay once they were made (`Release.Package`).
- The bound of three restarts counts recorded attempts that can be read back. The code tolerates a state file that cannot be written or read; with either, the number of restarts has no bound (`Governor.UnwrittenIsUnbounded`, `Governor.UnreadIsUnbounded`). `Governor.AttemptsAreBounded` says what each unreadable check costs.
- Behind `~/`, steps up are dropped as behind a root, which changes where the path leads exactly when it climbs above a home directory that is not the root (`Paths.HomeKeepsMeaningIff`).
- `canonicalizeChatFilePath` is described as giving a stable spelling. Folding its result again gives another spelling in exactly two families of paths (`Paths.CanonicalizeTwiceIff`, `Paths.RootIsLost`), and so does applying the whole function to its own result where normalising leaves that result alone (`Paths.StableSpellingIff`). Where it does not, as when `.h/%2541.txt` is percent-decoded a second time or `.h/a:12/` loses a line suffix that had been followed by a slash, the second application can differ for that reason too; normalising is a parameter here.
- Truncating to a byte budget keeps to the budget exactly when the suffix alone fits into it (`Delegation.TruncateUtf8`).

## Model

| member | source | states |
|---|---|---|
| Release.ValidateCandidates | scripts/macos-remote-desktop-release-guard.ts:195-212 | a candidate list is accepted exactly when it names every architecture once, in any order; the result maps each architecture to its own candidate |
| Release.CopyVariant | scripts/macos-remote-desktop-release-guard.ts:379-388 | copying fills only the staged directory, and on success it holds exactly the files of the source |
| Release.StageVariant | scripts/macos-remote-desktop-release-guard.ts:376-402 | staging one variant changes nothing outside the staging root; on success the staged copy is complete and accepted |
| Release.StageAll | scripts/macos-remote-desktop-release-guard.ts:376-402 | the same for any list of variants, succeeding exactly when all artifacts qualify and none of its operations fails |
| Release.OpenStaging | scripts/macos-remote-desktop-release-guard.ts:366-371 | the three directory operations before the `try`: which directories each failure leaves, the staging root exactly when the last one fails |
| Release.PublishOne | scripts/macos-remote-desktop-release-guard.ts:405-424 | one round either swaps the staged directory in and keeps the old one as backup, or leaves the disk as it was; every state on the way is one of three |
| Release.SwapPublishes | scripts/macos-remote-desktop-release-guard.ts:412-416 | a successful round extends the published prefix by one and leaves later variants waiting |
| Release.RoundIsObservable | scripts/macos-remote-desktop-release-guard.ts:405-424 | every state inside a round shows each destination as before, absent, or complete |
| Release.WithdrawalUndoes | scripts/macos-remote-desktop-release-guard.ts:428-433 | undoing the last published round restores the state before it |
| Release.Rollback | scripts/macos-remote-desktop-release-guard.ts:427-434 | withdrawing all published rounds, newest first, restores everything outside the staging root; on the way nothing is out of the ordinary but that each published destination is seen with every smaller number of its files |
| Release.Disk.Remove | scripts/macos-remote-desktop-release-guard.ts:430 | a recursive removal passes through one state for every smaller number of files |
| Release.PeelingIsEmptying | scripts/macos-remote-desktop-release-guard.ts:428-433 | while one published destination is being removed, all others are as before, absent or complete |
| Release.ObservableIff | scripts/macos-remote-desktop-release-guard.ts:427-434 | along such a run every state shows each destination as before, absent or complete exactly when no withdrawn destination shows its removal |
| Release.ComponentsShow | scripts/macos-remote-desktop-release-guard.ts:379-388 | a removal shows whenever something is shipped beside the manifest |
| Release.PublishRound | scripts/macos-remote-desktop-release-guard.ts:405-424 | a round within a run keeps the loop's invariant, one variant further on success and unchanged on failure |
| Release.PublishAll | scripts/macos-remote-desktop-release-guard.ts:405-434 | the publish loop installs every variant or restores every destination; which of the two, and how many rounds are taken back, is determined by which operation fails first |
| Release.StageAndPublish | scripts/macos-remote-desktop-release-guard.ts:375-434 | the body of the `try` installs everything, exactly when all artifacts qualify and no operation fails, or leaves everything but the destination root as before |
| Release.Package | scripts/macos-remote-desktop-release-guard.ts:360-438 | for every architecture list, prior state and pattern of failures: either all destinations hold their verified artifacts and nothing else changed but the roots, or an error and destinations, siblings and all else are exactly as before; success exactly when every variant qualifies and no operation fails; the two roots are as before or newly made, and the staging root is left exactly when the directory inside it could not be made; every state before a rollback shows each destination as before, absent or complete, a rollback empties the published ones file by file, and the three-way promise holds for the whole run exactly when no destination that is taken back shows its removal |
| Release.RollbackIsReachable | scripts/macos-remote-desktop-release-guard.ts:405-434 | every qualified run of at least two variants fails in its second round for some pattern of failures, and takes one destination back |
| Release.TakesBackOnce | scripts/macos-remote-desktop-release-guard.ts:405-434 | how many destinations a run takes back is determined by the pattern of failures |
| Release.SiblingsStay | scripts/macos-remote-desktop-release-guard.ts:360-438 | directories beside the destinations whose names do not start with `darwin-` are touched in no state of a run |
| CronChain.BestIsUnique | shared/cron-types.ts:461-508 | the best score over all readings of a text as a cumulative stream is unique |
| CronChain.ChainSearch.Visit | shared/cron-types.ts:469-505 | the memoised recursion returns the lexicographically largest (snapshots, growth steps) over all cuts of the remaining prefix, and null exactly when there is no cut |
| CronChain.ChainSearch.ScoreAt | shared/cron-types.ts:478-500 | the same over the cuts whose first snapshot ends at a given newline |
| CronChain.FindChain | shared/cron-types.ts:461-508 | the whole search, against the declarative best score |
| CronChain.FindCut | shared/cron-types.ts:517-545 | the separator loop finds the best convincing cut, ties going to the longest final snapshot |
| CronChain.NormalizeDetail | shared/cron-types.ts:515-547 | the result is the text after the best convincing cut of the newline-normalised detail, or the detail itself when there is none |
| CronChain.RewriteDropsSnapshots | shared/cron-types.ts:515-547 | what a rewrite drops is a newline-joined stream of at least four prefixes of what is kept, non-decreasing, growing at least four times, past both length thresholds |
| CronChain.BestExists | shared/cron-types.ts:461-508 | if a text reads as a stream at all there is a best reading, at least as good as the given one |
| CronChain.RecoveredIff | shared/cron-types.ts:451-454 | any cut of any text is convincing exactly when both sides are long enough and some reading with the most snapshots has at least four and grows at least four times |
| CronChain.LineStreamIsBest | shared/cron-types.ts:461-508 | a stream of single-line snapshots is best read line by line |
| CronChain.LineStreamNormalizes | shared/cron-types.ts:515-547 | such a stream is normalised to its newest snapshot exactly when there are at least four older ones growing at least four times and both sides are long enough |
| CronChain.CrlfByLine | shared/cron-types.ts:517 | newline normalisation takes one return from the end of every line but the last, and changes nothing else |
| CronChain.CrlfLines | shared/cron-types.ts:517 | lines joined by returns and newlines become the lines joined by newlines |
| CronChain.CrlfStreamNormalizes | shared/cron-types.ts:515-547 | a stream of single-line snapshots with such line ends is normalised to its newest snapshot under exactly the same condition |
| CronChain.CutIsUnique | shared/cron-types.ts:517-545 | the best cut is unique, so the normalised text is determined |
| CronChain.StairsGrow | shared/cron-types.ts:451-454 | a family of growing streams past every threshold |
| CronChain.GrowingStreamMissed | shared/cron-types.ts:515-547 | none of that family's cuts is convincing, so normalisation leaves it alone |
| CronControl.ProtocolIsWellFormed | shared/cron-types.ts:220-238 | the registrations and the legacy block of every schedule meet what the lemmas below need; the registrations are the second and the first version for this schedule |
| CronControl.BlockNamesSchedule | shared/cron-types.ts:229-238 | the legacy block differs for any two schedules and for the two policies |
| CronControl.RegisterIff | shared/cron-types.ts:279-307 | registration succeeds exactly when the command ends with the exact legacy block or holds no control block, what remains is not blank, and the registration is absent, exactly the first version or exactly the current one; the result is what remains with the current registration, migrated exactly when that differs; otherwise the first of these to fail gives the reason |
| CronControl.ValidateIff | shared/cron-types.ts:265-272 | strict validation accepts exactly the actions with a command that is not blank and the current registration, and says why it refuses others |
| CronControl.RegisteredIsValid | shared/cron-types.ts:265-307 | every successful registration passes strict validation unchanged and only replaces an absent, canonical or exact first-version registration |
| CronControl.RegisteredCommand | shared/cron-types.ts:279-307 | registration keeps the command up to one exact legacy block at its end and reports truly whether it changed anything |
| CronControl.RegisterAgain | shared/cron-types.ts:279-307 | registering again returns the same action unmigrated exactly when no control block is left; otherwise it strictly shortens the command by one block or refuses |
| CronControl.RegisterIdempotent | shared/cron-types.ts:279-307 | with at most one control block registration is idempotent |
| CronControl.SettleStripsBlocks | shared/cron-types.ts:279-307 | repeated registration ends, and all it ever removes are exact legacy blocks at the end |
| Notices.ReadAll | scripts/generate-macos-libwebrtc-notices.py:242-253 | the cursor loop reads what the recursive grammar reads |
| Notices.ParseNotices | scripts/generate-macos-libwebrtc-notices.py:229-256 | whatever the parser accepts has a good revision and good sections, and printing and parsing that again gives the same result |
| Notices.ParsedIsGood | scripts/generate-macos-libwebrtc-notices.py:229-256 | whatever the parser returns can be printed and read back: bodies are fence-free by construction |
| Notices.ParseIff | scripts/generate-macos-libwebrtc-notices.py:229-256 | the parser accepts exactly the files that begin with the inventory of a good revision, the expected targets and the section names, have these sections one after the other, and nothing but white space behind them; it returns that revision and these sections |
| Notices.PrintThenParse | scripts/generate-macos-libwebrtc-notices.py:192-256 | what is printed from good sections parses to the same revision, section order and bodies |
| Notices.PrintThenParseIff | scripts/generate-macos-libwebrtc-notices.py:192-256 | and only from good sections |
| Notices.WriteLines | scripts/generate-macos-libwebrtc-notices.py:192-212 | the line-by-line writer produces the printed file |
| Notices.LinesPrint | scripts/generate-macos-libwebrtc-notices.py:192-212 | the joined lines are the printed file |
| Notices.EscapedIs | scripts/generate-macos-libwebrtc-notices.py:210 | escaped text holds no markup character but for references, and reading the references gives the text back |
| Notices.RenderIff | scripts/generate-macos-libwebrtc-notices.py:169-212 | rendering succeeds exactly when every linked library is in the mapping and every file of a printed library is a regular file that is not blank; it prints WebRTC first and the others in ascending order, exactly the linked libraries that have license files, each with its escaped texts |
| Notices.RenderedParsesBack | scripts/generate-macos-libwebrtc-notices.py:169-212 | a rendered file parses back to exactly the rendered sections just when their names are free of commas and newlines and every body is closed by its own fence |
| Notices.MergeTexts | scripts/generate-macos-libwebrtc-notices.py:259-276 | the merge loop against its specification |
| Notices.MergeInputsHold | scripts/generate-macos-libwebrtc-notices.py:259-276 | merging succeeds exactly when the inputs agree, and then holds exactly their union |
| Notices.MergeNotices | scripts/generate-macos-libwebrtc-notices.py:259-288 | the whole merge against its specification |
| Notices.MergeSucceedsIff | scripts/generate-macos-libwebrtc-notices.py:259-288 | success exactly for at least two inputs that parse, share a revision and agree on shared libraries |
| Notices.MergeOrderIndependent | scripts/generate-macos-libwebrtc-notices.py:259-288 | the order of the inputs changes neither success nor the written text |
| Notices.MergedParsesBack | scripts/generate-macos-libwebrtc-notices.py:259-288 | the merged text parses to the common revision and exactly the union of the sections, WebRTC first and the others in ascending order |
| Notices.MergeAbsorbsInputs | scripts/generate-macos-libwebrtc-notices.py:259-288 | merging the result with any of its inputs, in either order, changes nothing |
| Inbox.CutLineIsSkipped | shared/core-lane-inbox.ts:49-56 | no proper prefix of a record's line is a record |
| Inbox.GluedLineIsSkipped | shared/core-lane-inbox.ts:49-56 | the remains of a record followed by a whole record are no record |
| Inbox.RemainsAreOneLine | shared/core-lane-inbox.ts:49-56 | what is read from any number of a record's bytes is one line, and a record only when it is the whole line |
| Inbox.TornRecordRecovers | shared/core-lane-inbox.ts:43-67 | a crash that leaves any number of a record's bytes recovers to the state before it, or after it once only the newline is missing |
| Inbox.AppendAfterCrash | shared/core-lane-inbox.ts:43-67 | a record appended after a crash survives exactly when nothing torn was left |
| Inbox.StepKeepsInStep | shared/core-lane-inbox.ts:32-41 | every operation keeps log and map in step |
| Inbox.PutIs | shared/core-lane-inbox.ts:33 | appending an entry replaces the one with its id in its place, and otherwise adds it at the end |
| Inbox.DropIs | shared/core-lane-inbox.ts:38 | acknowledging takes out exactly the entry with the id; the others keep their order |
| Inbox.AppendedLog | shared/core-lane-inbox.ts:59-67 | appending a record's bytes to any log extends what is read by that record, and any number of them by its remains |
| Inbox.CrashRecovers | shared/core-lane-inbox.ts:32-78 | a crash anywhere inside an operation, compaction included, recovers to the state before or after it |
| Inbox.RunRecovers | shared/core-lane-inbox.ts:28-57 | after any run, replay rebuilds the ordered map, up to entries with an empty id, and the pending list of what it rebuilds is that of the map without these |
| Inbox.GluedRemainsAreSkipped | shared/core-lane-inbox.ts:49-56 | nor are remains followed by further remains |
| Inbox.WritesSurvive | shared/core-lane-inbox.ts:43-67 | however often appends are cut short, and wherever, a restart recovers exactly the records whose line is there in full, behind a newline or the old log, and followed by a newline unless nothing was appended since |
| Inbox.RanIsStep | shared/core-lane-inbox.ts:32-41 | the histories of the next row are made of the operations of the class |
| Inbox.DiedIsCrash | shared/core-lane-inbox.ts:32-78 | and of exactly the crashes the class can meet |
| Inbox.HistoryRecovers | shared/core-lane-inbox.ts:22-78 | operations, crashes and restarts in any order: a restart recovers exactly the surviving records; the map holds what the last restart recovered and every record appended since; the two agree if the log ended with a newline at that restart, or nothing was appended since |
| Inbox.RecoveredIsClean | shared/core-lane-inbox.ts:43-57 | whatever a log holds, recovered ids are distinct and not empty |
| Inbox.BodyRecovers | shared/core-lane-inbox.ts:69-78 | the compacted log of any map recovers to that map |
| Inbox.PendingIsStable | shared/core-lane-inbox.ts:28-30 | the pending list is sorted by time and keeps map order among entries of one time |
| Inbox.CoreLaneInbox.constructor | shared/core-lane-inbox.ts:22-26 | loading replays the log |
| Inbox.CoreLaneInbox.Append | shared/core-lane-inbox.ts:32-35 | map and log after an append, and every log a crash can leave |
| Inbox.CoreLaneInbox.Acknowledge | shared/core-lane-inbox.ts:37-41 | map and log after an acknowledgement, and every log a crash can leave |
| Inbox.CoreLaneInbox.Compact | shared/core-lane-inbox.ts:69-78 | the log becomes the live entries through an atomic rename; a crash at any moment of it recovers exactly the live entries |
| Frames.FrameDecoder.Push | shared/aidesk-local-ipc.ts:132-155 | a push returns the completed frames or throws, and either way buffers exactly what the pass left over |
| Frames.EncodeFrameIff | shared/aidesk-local-ipc.ts:117-126 | a value is encoded exactly when its JSON text takes at most a mebibyte: as its length in four bytes, the most significant first, and the text in UTF-8 |
| Frames.DrainAppend | shared/aidesk-local-ipc.ts:132-155 | draining in two steps is draining at once |
| Frames.ChunksDoNotMatter | shared/aidesk-local-ipc.ts:132-155 | however a stream without bad frames is cut into chunks, the decoder ends as if it had seen it whole |
| Frames.DrainErrorStays | shared/aidesk-local-ipc.ts:137-152 | an error is met again, behind the same frames, when more bytes follow |
| Frames.BadFrameShows | shared/aidesk-local-ipc.ts:135-152 | a bad frame shows at one byte: a prefix of the stream meets it exactly when it contains that byte |
| Frames.BadFrameLosesItsChunk | shared/aidesk-local-ipc.ts:132-155 | for every stream with a bad frame and every way of cutting it, the pushes return exactly the frames complete before the chunk with that byte; the frames that chunk completes are lost, so all good frames are returned exactly when it completes none |
| Frames.RestIsStuck | shared/aidesk-local-ipc.ts:132-155 | what is left over yields nothing by itself |
| Frames.PrefixDrains | shared/aidesk-local-ipc.ts:117-155 | any prefix of a message stream yields exactly the messages whose frames are complete |
| Frames.MessagesSurviveChunking | shared/aidesk-local-ipc.ts:117-155 | for every message list and every way of cutting, after every push the returned messages are exactly the complete ones in order, and the buffer is the unconsumed proper prefix of one frame |
| Utf8.DecodeEncode | shared/aidesk-local-ipc.ts:118-142 | decoding encoded text gives the text back |
| Utf8.OnlyEncodingsDecode | shared/aidesk-local-ipc.ts:141 | nothing but the encoding of a character is decoded to it |
| Utf8.BytesCut | shared/core-lane-inbox.ts:43-67 | from any number of bytes of a text the first characters are read, and marks for a character that was cut |
| Utf8.DecodeFresh | shared/core-lane-inbox.ts:43-67 | bytes that start with an ASCII character are read on their own, whatever stands before them |
| Json.ParseStringify | shared/aidesk-local-ipc.ts:118-147 | parsing printed JSON gives the value back |
| Clock.ServerClockEstimator.AddSample | shared/clock-sync.ts:41-51 | a sample is used exactly when its three times are positive and the round trip is between nothing and ten seconds; it then slides the window, and otherwise changes nothing |
| Clock.WindowHoldsLast | shared/clock-sync.ts:41-51 | the window holds the offsets of the last accepted samples, at most `maxSamples` |
| Clock.MiddleInside | shared/clock-sync.ts:61-66 | the middle of a sorted list lies where more than half of it lies |
| Clock.MedianInside | shared/clock-sync.ts:61-65 | where more than half of the offsets lie their median lies |
| Clock.MedianReflects | shared/clock-sync.ts:63-65 | the median of mirrored offsets is the mirrored median, which makes it the mean of the middle two of an even number |
| Clock.EstimateIsMedian | shared/clock-sync.ts:59-67 | the estimate is the median rounded to the nearest millisecond, up from the middle; nothing without offsets |
| Clock.MajorityBoundsEstimate | shared/clock-sync.ts:59-67 | if more than half of the offsets lie in an interval, the estimate lies in it widened by half a millisecond, for odd and even counts |
| Clock.SampleError | shared/clock-sync.ts:43-47 | a sample stamped between send and receive errs by at most half its round trip |
| Clock.EstimateIsClose | shared/clock-sync.ts:41-72 | end to end: with a majority of honest samples of bounded round trip, a translated server time is off by at most half that bound plus half a millisecond |
| BoundedJson.Walker.Visit | shared/capability-management.ts:1110-1143 | visiting a value raises no issue exactly when it fits, and then has counted its whole tree |
| BoundedJson.Walker.VisitEntries | shared/capability-management.ts:1110-1143 | the same for the entries of a container |
| BoundedJson.BoundedJsonIssue | shared/capability-management.ts:1110-1143 | terminates on every object graph and accepts exactly the values that unfold to a tree within every limit; a reported issue is true of the value: a path too long, a cycle, an unsupported value or a container with too many entries that is reached, or counts beyond the limit |
| BoundedJson.CycleNeverUnfolds | shared/capability-management.ts:1110-1143 | a value on a cycle unfolds to no tree |
| BoundedJson.UnfoldsIffShort | shared/capability-management.ts:1110-1143 | a value unfolds within a depth exactly when no path from it is longer |
| BoundedJson.AcceptedIsBounded | shared/capability-management.ts:1110-1143 | an accepted value reaches no cycle, nests at most twelve deep, keeps every count, and exceeds the byte limit by at most one trailing literal |
| BoundedJson.ScanIsExact | shared/capability-management.ts:1090-1108 | on a value that unfolds in time the credential scan's depth guard never fires |
| BoundedJson.AcceptedIsScannedExactly | shared/capability-management.ts:1418-1420 | on every accepted configuration the scan reports a credential-shaped key exactly when there is one |
| BoundedJson.CredentialIff | shared/capability-management.ts:1103-1104 | a key is credential-shaped exactly when a secret word can be read somewhere in it, each letter in either case, and it does not read as a whole as a head, an optional underscore or hyphen, and `ref` or `id` |
| BoundedJson.ScanFindsExactly | shared/capability-management.ts:1090-1108 | the scan of an accepted configuration reports a key exactly when some object that is reached from it has such a key |
| BoundedJson.TextBytesAre | shared/capability-management.ts:1123-1134 | a character counts as the bytes it takes in UTF-8 |
| Canonical.CanonIsExact | shared/capability-management.ts:571-578 | two values have one canonical form exactly when they differ only in key order and undefined entries |
| Canonical.CanonIsEquiv | shared/capability-management.ts:571-578 | the canonical form differs from the value only in that way |
| Canonical.CanonIsIdempotent | shared/capability-management.ts:571-578 | canonicalisation is idempotent |
| Canonical.CanonAscends | shared/capability-management.ts:575 | in a canonical form the keys of every object ascend |
| Canonical.PayloadReadsBack | shared/capability-management.ts:584-607 | parsing a payload gives the canonical form, its undefined items read as null |
| Canonical.FillCanon | shared/capability-management.ts:571-578 | replacing undefined array items by null commutes with canonicalisation |
| Canonical.PayloadIsExact | shared/capability-management.ts:584-607 | two values have one payload text exactly when, undefined items read as null, they differ only in key order and undefined entries |
| Canonical.HolesPrintAsNull | shared/capability-management.ts:584-607 | an undefined and a null array item are told apart by the form and not by the text |
| Canonical.DigestPayloadIsExact | shared/capability-management.ts:584-607 | the digest preimage of two frames is the same exactly when their covered parts differ only in that way |
| Canonical.DigestCoversExactly | shared/capability-management.ts:584-607 | two frames have one preimage exactly when they are of one type and agree on owner, server, revision and, up to key order and undefined entries, on items, versions, bindings, tombstones and keys, on the tombstone, or on records and keys; frames of different types never share one |
| StringOrder.LessIff | shared/capability-management.ts:575 | the order of keys is that of the first difference, a proper prefix coming first |
| Canonical.SameDigestSameTombstone | shared/capability-management.ts:584-607 | tombstone frames with one preimage agree on owner, revision and tombstone |
| Alias.MatchesDoNotOverlap | shared/alias-types.ts:226 | two matches of the marker pattern are equal or disjoint |
| Alias.MatchesAreMatchList | shared/alias-types.ts:226 | the left-to-right scan visits every place where the pattern matches |
| Alias.MatchListUnique | shared/alias-types.ts:226 | that list is unique |
| Alias.ValidNameIff | shared/alias-types.ts:151-157 | a name is valid exactly when it has one to twenty characters, each a full stop, an underscore, a hyphen, or a letter or number |
| Alias.ParseAliasMarkers | shared/alias-types.ts:238-250 | the result holds each valid name some marker captures, once, in order of first occurrence |
| Alias.NameListUnique | shared/alias-types.ts:238-250 | this description fixes the list |
| Alias.SanitizedIsClean | shared/alias-expand.ts:100-110 | sanitised text is within its cap and free of control characters; normalised text passes unchanged exactly when it is already so |
| Alias.SanitizedIs | shared/alias-expand.ts:100-110 | what passes is exactly the normalised text without its control characters other than newline and tab, in order, as much of it as the cap allows |
| Alias.SanitizeTwiceIff | shared/alias-expand.ts:100-110 | a second pass gives the normalised first result cut to the cap, and changes nothing exactly when the first result is normalised, or fills the cap and normalising only appends to it |
| Alias.SanitizeTwiceDiffers | shared/alias-expand.ts:100-110 | a control character between a letter and its combining mark makes the second pass differ |
| Alias.SanitizeTwiceCuts | shared/alias-expand.ts:100-110 | when composing them lengthens a text that fills the cap, the second pass gives a proper prefix of the normalised first result |
| Alias.ScanIsSpliced | shared/alias-expand.ts:136-147 | the substitution pass equals the original with the spans of its match list replaced and everything else copied |
| Alias.ExpandForAgent | shared/alias-expand.ts:160-193 | the valid names without a value are reported in order of their first markers; inline: delivered exactly when every valid marker has a value, and then the spliced text over the unique match list; legend: directive, one line for each valid marked name with a value, each once, in order of their first markers, empty line, untouched text |
| Alias.OpeningDeliveredIff | shared/alias-expand.ts:136-175 | with harmless values an opening is delivered exactly when the message has one that starts no valid marker |
| Alias.MarkerDeliveredIff | shared/alias-expand.ts:136-175 | with harmless values a valid marker is delivered exactly when such an opening is followed, after substitution, by a valid name and a closing parenthesis |
| Alias.NoMarkerIsDelivered | shared/alias-expand.ts:149-175 | harmless values and a message whose openings all start valid markers: no marker is delivered |
| Alias.MarkerInValueIsDelivered | shared/alias-expand.ts:149-175 | a value that is a marker is delivered as it stands |
| Alias.EmptyValueJoinsMarker | shared/alias-expand.ts:149-175 | an empty value lets the text around it come together to a marker |
| Alias.NestedMarkerIsDelivered | shared/alias-expand.ts:149-175 | a marker around a marker becomes valid when the inner one is replaced |
| Alias.SingleLineIsWords | shared/alias-types.ts:281-283 | the single-line form is the words of the text joined by single spaces |
| Alias.EntryIsOneLine | shared/alias-types.ts:281-304 | a legend line is one line whatever value and note hold: the marker, the words of the sanitised value, and for a note that is not blank the separator and its words, cut to the budget and then followed by the hint |
| Alias.LegendLines | shared/alias-expand.ts:181-193 | the lines of a text with a legend in front |
| Delegation.SplitJoinReplaces | shared/agent-delegation.ts:555-558 | splitting at a marker and joining is replacing it from left to right |
| Delegation.OneMoreMarker | shared/agent-delegation.ts:555-558 | replacing markers one after another is replacing them all in a single reading |
| Delegation.NothingNew | shared/agent-delegation.ts:555-558 | a replacement never completes a new marker |
| Delegation.NeutralizeMarkers | shared/agent-delegation.ts:553-560 | the replacement loop computes the single reading |
| Delegation.DefangedIsClean | shared/agent-delegation.ts:553-560 | neutralised text contains none of the markers |
| Delegation.NoEnvelopeIsLeft | shared/agent-delegation.ts:540-560 | none of the four envelope markers is left in neutralised text |
| Delegation.CleanIsKept | shared/agent-delegation.ts:553-560 | marker-free text is unchanged |
| Delegation.GrantIsRead | shared/agent-delegation.ts:627-654 | the JSON behind a built marker grants exactly its id |
| Delegation.OpaqueIdIff | shared/agent-delegation.ts:616-625 | an id is acceptable exactly when it is not empty, takes at most 256 bytes and consists of letters, digits, underscores and hyphens |
| Delegation.SessionNameIff | shared/agent-delegation.ts:481-486 | a session name is `deck_sub_` and letters, digits, `_` and `-`, or `deck_`, a project of those and `.`, `_`, and `brain` or `w` with a number |
| Delegation.InstructionSays | shared/agent-delegation.ts:578-608 | the two lines of an instruction with authority: the marker and the id, with the contract references unless the task-pair engine runs without audit; and the reply tool with its binding, for an audit its four fields, otherwise the id and the session to reply to |
| Delegation.PlainInstructionSays | shared/agent-delegation.ts:609 | without authority the instruction asks for a message to exactly this session |
| Delegation.NoInstructionIff | shared/agent-delegation.ts:583-585 | there is no instruction exactly when the session or the id is not acceptable |
| Delegation.ReadGrantIff | shared/agent-delegation.ts:630-648 | what grants an id: JSON for an object of known keys only, with an acceptable id and no other than the current contract references |
| Delegation.FirstMarkerDecides | shared/agent-delegation.ts:623-654 | the first line with a structured marker decides alone, by the text behind its first marker |
| Delegation.LinesLoseReturns | shared/agent-delegation.ts:626 | lines are separated by newlines, with or without a return before them |
| Delegation.InstructionDecides | shared/agent-delegation.ts:627-654 | behind content without structured markers only the lines of the instruction matter |
| Delegation.OnlyGrantedAuthorityIsRead | shared/agent-delegation.ts:578-654 | for every body, session, authority and option, extracting from the neutralised body, a blank line and the built instruction gives the built delegation id exactly when session and id are acceptable and authority was given, and nothing otherwise |
| Delegation.TruncateUtf8 | shared/agent-delegation.ts:789-802 | text within the budget is kept, otherwise the longest prefix that leaves room for the suffix; within the budget exactly when the text or the suffix alone is |
| Governor.RestartIff | shared/aidesk-app-refresh.ts:106-129 | a check restarts exactly when nothing is active, every version is known, some process is stale, an attempt is left and the spacing is kept; what it restarts is stale |
| Governor.LeaveIff | shared/aidesk-app-refresh.ts:106-114 | a check leaves the app alone exactly when nothing is installed or running, a version is unknown or all are current, and says the first of these |
| Governor.StaleIff | shared/aidesk-app-refresh.ts:112-129 | with stale processes it defers when no attempt is left, else while a session is active, else until the spacing is kept, naming them in order, and otherwise restarts the first of them |
| Governor.AttemptsAreBounded | shared/aidesk-app-refresh.ts:106-129 | in any stretch of one installed version recorded restarts number at most three less those already counted, and three more for every check that could not read the file |
| Governor.NoneLeft | shared/aidesk-app-refresh.ts:106-129 | with no attempt left and a readable file there is no restart |
| Governor.ThreeRestarts | src/node/macos-aidesk-app-refresh.ts:137-143 | as long as the state file can be read and written at most three restarts, node restarts anywhere in between |
| Governor.RestartsAreSpaced | shared/aidesk-app-refresh.ts:123-129 | while the file can be read, a restart comes at least ten minutes after the last recorded one before it |
| Governor.RestartsAreSafe | shared/aidesk-app-refresh.ts:106-129 | no restart of any run has an active connection or an unreadable process version |
| Governor.AttemptsAreMade | shared/aidesk-app-refresh.ts:106-129 | the bound is met: eligible checks ten minutes apart all restart until the attempts are used up |
| Governor.UnwrittenIsUnbounded | src/node/macos-aidesk-app-refresh.ts:141-143 | when the state file cannot be written restarts have no bound |
| Governor.UnreadIsUnbounded | src/node/macos-aidesk-app-refresh.ts:64-76 | when it cannot be read they have none either, even if every attempt is recorded |
| Paths.FoldSegments | shared/chat-local-path.ts:119-128 | the folding loop against its specification; the result is in normal form |
| Paths.FoldIsNormal | shared/chat-local-path.ts:119-128 | no empty or `.` segment, `..` only as a leading run of a relative path |
| Paths.FoldIsIdempotent | shared/chat-local-path.ts:119-128 | folding twice is folding once |
| Paths.FoldKeepsMeaning | shared/chat-local-path.ts:119-128 | walking the folded segments from any start leads where the original ones lead; a rooted path from its root |
| Paths.FoldIsCanonical | shared/chat-local-path.ts:119-128 | two relative paths fold alike exactly when they lead to the same place from everywhere |
| Paths.HomeKeepsMeaningIff | shared/chat-local-path.ts:105-128 | behind `~/` folding keeps the meaning exactly when the path stays below home or home is the root |
| Paths.CanonicalizeTwiceIff | shared/chat-local-path.ts:91-132 | folding the folded path again changes nothing except in exactly two families of paths |
| Paths.CanonicalMeans | shared/chat-local-path.ts:91-132 | the result names the same place, from the same drive, root or home, or from everywhere; a path without dot names is kept, any other is folded and, where it has changed, written with one kind of separator |
| Paths.StableSpellingIff | shared/chat-local-path.ts:91-132 | where normalising leaves the result alone, the whole function applied to it gives the same path exactly outside those families |
| Paths.RootIsLost | shared/chat-local-path.ts:101-131 | a member of the first family: a rooted path turns relative |

## Left out

- Release.Package: failures of the undo renames and of the backup clean-up are outside the fault model, since with them the promise is false; `mkdtemp` gives a new directory; files are copied, and backups removed, one after another instead of concurrently, so that the copies have ended before the final clean-up, which the exact condition for a left staging root needs; `ENOENT` is reported for missing paths only, never as a fault of its own (over an existing empty destination it would lose that destination in a rollback); signature and hash checks are the parameter `accepts`.
- Release.ValidateCandidates: only the architecture bookkeeping; the fields of a candidate are not modelled.
- Inbox.RunRecovers: stated for logs of complete lines; `Inbox.HistoryRecovers` says what happens on the logs that crashes leave. `fsync`, file modes and directory creation are not modelled, nor other I/O errors.
- Inbox.CrashRecovers: the disk holds some prefix of the appended bytes; reordered page writes are not modelled. A cut character is read as one mark for each of its bytes, where the platform may read one mark for all of them; the lemmas hold for any number of marks.
- Frames.MessagesSurviveChunking: messages print as integers-only JSON; a malformed byte becomes one U+FFFD, while the platform may group several, which cannot matter for encoded messages.
- Clock.EstimateIsClose: arithmetic is exact (`real`); rounding of floating point is not modelled.
- Canonical.CanonIsExact: JavaScript lists integer-like keys first whatever order they are set in; such keys are treated like all others.
- Canonical.CanonAscends: keys are ordered by code points, while JavaScript compares UTF-16 units; the two differ only between characters beyond the basic plane and those from U+E000 to U+FFFF.
- BoundedJson.BoundedJsonIssue: getters, proxies and prototype properties are not modelled, nor are sparse arrays, on whose holes the code throws instead of returning an issue.
- CronChain.LineStreamNormalizes: the two length thresholds count UTF-16 units in the code and code points here, as they do in `CronChain.RecoveredIff` and `CronChain.NormalizeDetail`; comparing lengths of prefixes and suffixes of one text comes to the same.
- CronChain.FindChain: the memo is a map field; its cost is not modelled.
- Notices.RenderedParsesBack: reading license files with universal newlines and running `gn` are not part of this model; targets arrive sorted.
- Alias.ExpandForAgent: the table of agent types and the server-side validators are left out as plain look-ups; own-property look-up is map membership.
- Delegation.OnlyGrantedAuthorityIsRead: white space inside JSON is not accepted by the modelled parser; built instructions hold none.
- Governor.AttemptsAreBounded: process listing, termination, launching and the delay until the next check are left out; a check is what it observes, the two clock readings, and whether the state file could be read and written. A file edited by hand is taken as what the reader makes of it.
- Paths.StableSpellingIff: `normalizeChatFileReference` is a parameter; file URLs and Markdown links are not part of this model, and folding is lexical, so symbolic links are not considered.
- Delegation prompts in several languages, reply envelopes and their validators: text assembly and field checks.
- Installers, smoke scripts, native glue, message constants, small numeric helpers and flat validators: nothing that spans operations.
