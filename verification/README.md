# update-dubbd, modelled in Dafny

`update-dubbd` is a small Go watcher. It loops forever. Each pass:

1. reads the last deployed DUBBD version from `latest_version.txt`;
2. finds the Slack channel `public-uds`;
3. fetches that channel's history and takes the first message from `uds-new-release` whose text matches `DUBBD v(\d+\.\d+\.\d+)`;
4. when that version differs from the stored one, writes it to the file and runs `zarf package deploy …:<version>-amd64 …` through the shell.

It then sleeps four hours and exits with status 0 if SIGINT or SIGTERM arrived in the meantime. A failed read, a failed channel list, a missing channel or a failed history fetch exits with status 1.

The model makes this decision pure. The Slack answers, the outcome of the file write and "is a signal pending" are inputs. The file is an abstract store. The deploy is the command string it would run.

- `wrappers.dfy`: `Option` and `Result`.
- `search.dfy`: the first-match `for … range … break` search used for channels and for messages.
- `version_pattern.dfy`: the regular expression, as a scanner. It is proved equal to a declarative definition of Go's leftmost-first, greedy match.
- `version_store.dfy`: `readVersionFromFile` / `writeVersionToFile`.
- `slack.dfy`: the fields of Slack's channel and message records that the program reads.
- `watcher.dfy`:
  - channel lookup, extraction from the history, the deploy command and the compare step;
  - one iteration (`Iteration`);
  - a finite stretch of the loop (`Run`).

The source as written does not compile: `api` is never defined (update-dubbd.go:53), and `err :=` is declared twice in one block (update-dubbd.go:101 and 113). The model follows the evident intent. `api` is a client built from the token, whose answers are inputs. The second `err` is a fresh error value that is only printed.

Regular-expression semantics. A match of `DUBBD v(\d+\.\d+\.\d+)` starting at position `i` captures `v` exactly when all of these hold (`MatchesAt`):
- the text has `DUBBD v` at `i`;
- `v` follows it immediately;
- `v` is three non-empty ASCII digit runs joined by dots;
- no digit follows `v`.

Greedy `\d+` makes the first two runs maximal, because each must be followed by a dot. It makes the last run maximal by taking every digit. Leftmost-first means the match with the smallest start wins (`LeftmostMatch`). Since at most one capture exists per start, that is what `FindStringSubmatch` returns as group 1.

## Model

| member | source | states |
|---|---|---|
| `Search.FirstIndex` | update-dubbd.go:60-65 | the index returned is that of an element satisfying the test, with none before it; None only when no element satisfies it |
| `Search.FirstIndexFinds` | update-dubbd.go:60-65 | conversely, the first satisfying position is always the one found |
| `VersionPattern.DigitRun` | update-dubbd.go:32 | `\d+` at a position spans exactly the maximal run of ASCII digits there |
| `VersionPattern.MatchAt` | update-dubbd.go:32 | the scanner's capture at a start position is a match there, and every match starting there is the one it returns |
| `VersionPattern.MatchIsUnique` | update-dubbd.go:32 | at most one capture is possible for a given start position |
| `VersionPattern.FirstMatch` | update-dubbd.go:87 | the match returned is a real match, and no match starts earlier from the scan's start; None means no match anywhere after it |
| `VersionPattern.ExtractVersion` | update-dubbd.go:87-89 | a returned version is the capture of the leftmost match and has the shape digits.digits.digits; None means the text has no match at all |
| `VersionPattern.ExtractVersionFinds` | update-dubbd.go:87-89 | conversely, the capture of the leftmost match is always what is extracted |
| `VersionPattern.ExtractedVersionIsNonEmpty` | update-dubbd.go:82-95 | an extracted version is never "", so the source's empty-string "not found" sentinel agrees with the Option |
| `VersionPattern.ExtractedComponentsAreMaximalRuns` | update-dubbd.go:32 | each of the three components is the maximal digit run at its place in the text |
| `VersionPattern.ExtractFourPartVersion` | update-dubbd.go:32 | in "DUBBD v1.2.3.4" the unanchored pattern captures "1.2.3" |
| `VersionPattern.ExtractBareAnnouncement` | update-dubbd.go:87-89 | "DUBBD v1.1.0" yields "1.1.0" |
| `VersionStore.Read` | update-dubbd.go:137-143 | reading succeeds exactly when the file is readable, and returns its whole contents untrimmed |
| `VersionStore.Write` | update-dubbd.go:145-147 | after a successful write, reading returns exactly the version written; a failed write leaves whatever the failure left |
| `VersionStore.WriteThenRead` | update-dubbd.go:137-147 | write-then-read returns the same string with nothing added, whatever was stored before |
| `Watcher.ResolveChannel` | update-dubbd.go:59-70 | success returns the non-empty ID of the first channel named public-uds; failure happens exactly when there is no such channel or its ID is empty |
| `Watcher.ResolveChannelFinds` | update-dubbd.go:59-65 | the first public-uds channel with an ID is always the one chosen, whatever follows it |
| `Watcher.ExtractFromHistory` | update-dubbd.go:82-93 | a result comes from the first message by uds-new-release with non-empty matching text; None exactly when no message qualifies; a result is a non-empty version |
| `Watcher.FirstAnnouncementWins` | update-dubbd.go:84-93 | the first qualifying message in list order decides the version |
| `Watcher.LaterMessagesIgnored` | update-dubbd.go:88-91 | appending messages after a qualifying one never changes the result |
| `Watcher.SilentPrefixShifts` | update-dubbd.go:84-93 | inserting a silent message shifts later positions by one and leaves a silent prefix silent |
| `Watcher.SilentMessageIgnored` | update-dubbd.go:84-93 | a non-qualifying message inserted anywhere never changes the result |
| `Watcher.OtherMessagesIgnored` | update-dubbd.go:85 | messages by other authors, or with empty text, never contribute a version, whatever their text |
| `Watcher.EarlierOfTwoAnnouncementsWins` | update-dubbd.go:84-93 | of two qualifying messages, the earlier one's version is extracted |
| `Watcher.DeployCommand` | update-dubbd.go:107 | the command decodes back to exactly the version it was built from |
| `Watcher.DeployCommandIsTemplate` | update-dubbd.go:107 | the command is exactly `zarf package deploy oci://ghcr.io/defenseunicorns/packages/dubbd-k3d:<version>-amd64 --oci-concurrency=15 --confirm` |
| `Watcher.DeployCommandInjective` | update-dubbd.go:107 | distinct versions give distinct commands |
| `Watcher.DeployCommandNamesImage` | update-dubbd.go:107 | the OCI reference in the command ends in `<version>-amd64` |
| `Watcher.Decide` | update-dubbd.go:95-122 | not found exactly when nothing was extracted; up to date exactly when the extracted version equals the stored one character for character; otherwise a deploy of the extracted version |
| `Watcher.Iteration` | update-dubbd.go:44-133 | fatal, with status 1, exactly when the read, the channel list, the lookup or the history fetch fails; otherwise the store changes only on a deploy, and then by writing the new version; exit 0 exactly when a signal is pending |
| `Watcher.ChannelMissingIsFatal` | update-dubbd.go:67-79 | with no public-uds channel the outcome is exit 1, whatever the history would have been |
| `Watcher.OnlyResolvedHistoryMatters` | update-dubbd.go:73-75 | only the history of the resolved channel ID influences the outcome |
| `Watcher.NoMatchNoChange` | update-dubbd.go:95-121 | with no qualifying message, the action is "not found" and the store is unchanged |
| `Watcher.SameVersionNoChange` | update-dubbd.go:99-119 | when the extracted version equals the stored one, nothing is written and nothing deployed |
| `Watcher.StoredNewlineCountsAsChange` | update-dubbd.go:99 | a stored "1.0.0" plus newline differs from an announced "1.0.0" (no trimming), so that version is deployed |
| `Watcher.NewVersionDeploys` | update-dubbd.go:99-116 | a different version yields a deploy, with exactly one command, the deploy command for that version; a successful write leaves exactly that version stored |
| `Watcher.WriteFailureNotFatal` | update-dubbd.go:101-116 | a failed write never makes the iteration fatal and changes neither its action nor how it ends |
| `Watcher.ChangedVersionExample` | update-dubbd.go:44-122 | with "1.0.0" stored, a public-uds channel second in the list and "DUBBD v1.1.0" from uds-new-release after another author's "DUBBD v9.9.9", one iteration deploys 1.1.0 and stores it |
| `Watcher.Run` | update-dubbd.go:44-134 | at most one command per iteration; the exit status, if any, is 0 or 1 |
| `Watcher.RunExitsOnSignal` | update-dubbd.go:124-133 | every command issued is a deploy command; exit status 0 only after an iteration that saw a signal; the loop keeps going only if no iteration did |
| `Watcher.RunStopsOnFatal` | update-dubbd.go:46-79 | a fatal first iteration ends the run with status 1, no command issued and the store as it was |
| `Watcher.RunStopsOnSignal` | update-dubbd.go:124-130 | an iteration that acts with a signal pending ends the run with status 0, after that iteration's own command |
| `Watcher.RunAppend` | update-dubbd.go:44-134 | a run over `a + b` is the run over `a` when that exits; otherwise it continues with `b` from the store `a` left, with the commands of both in order |
| `Watcher.RunContinues` | update-dubbd.go:95-133 | an iteration that acts with no signal pending (version not found, already deployed, deployed, or its write failed) lets the run go on from the store it left, after its own command |
| `Watcher.RunStopsAt` | update-dubbd.go:44-134 | the first iteration that stops polling decides the exit status: 1 if it is fatal, 0 if it acts with a signal pending, later iterations never mattering; one that acts with no signal pending leaves the loop polling |
| `Watcher.PollingRunPassContinues` | update-dubbd.go:44-134 | in a run that has not exited, every iteration acted and saw no signal |
| `Watcher.ContinuingPassesKeepPolling` | update-dubbd.go:44-134 | iterations that all act with no signal pending leave the run polling |
| `Watcher.RunKeepsPolling` | update-dubbd.go:44-134 | the run has not exited exactly when every iteration, started from the store the previous one left, acted and saw no signal |
| `Watcher.SteadyDeploysOnce` | update-dubbd.go:44-134 | while the same version stays announced and writes succeed, it is deployed once if it differs from the stored version and never otherwise, and it ends up stored |

## Left out

- Slack API calls (`GetConversations`, `GetConversationHistory`): a foreign library. Their results are inputs of each iteration. The history is a function of the channel ID. Only the first page is ever used, so paging is absent.
- Creating the Slack client from the token: `api` is undefined in the source.
- The startup check of `SLACK_API_TOKEN` (update-dubbd.go:18-23): reading the environment is I/O, and an empty token only exits with status 1 before the loop starts, so it is not part of an iteration. `Run` describes the loop once that check has passed.
- Running `/bin/sh -c` and wiring its output streams: a subprocess. Only the command string is modelled. Its exit status is only printed, so it is not an input, and a failing command cannot change the outcome.
- `time.Sleep` and the signal channel: timing and concurrency. The pending signal is a boolean input per iteration.
- The infinite loop: `Run` covers any finite prefix of iterations, given the answers of each.
- Log messages printed with `fmt.Printf`.
- Byte-level string handling: Go strings are UTF-8 bytes, and the model uses `seq<char>`. The pattern and `\d` are ASCII, so matching is unaffected.
- General regular-expression semantics: only this one fixed pattern is modelled.
- `VersionStore.Write`: a failed `ioutil.WriteFile` may truncate or partly write the file. The model does not describe the resulting contents; that store is an input.
