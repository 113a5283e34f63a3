# gh-notifier core, modelled in Dafny

gh-notifier polls the GitHub notifications endpoint and raises one desktop
notification for each notification it has not shown before. This project covers
the sequential logic around that polling:

- **Click URL** (`Notifier.BuildPullOrIssueUrl`, and its copy `Util.BuildPullOrIssueUrl`).
  - The API URL of a notification's subject becomes the GitHub page that the click opens.
  - The result is `https://github.com/<owner>/<repo>/<issues|pull>/<number>`.
  - It is built from the fourth-last, third-last and last `/`-segments.
  - `issues` is chosen when some segment is exactly `issues`, `pull` otherwise.
  - No URL gives `""`.
  - Fewer than four segments makes the source index out of bounds and panic. The model returns `Failure(TooFewSegments(url))` instead.
- **The run** (`Notifier.NotifyAll` and its loop `Notifier.AnnounceBatch`).
  - It reads the identifier file `$HOME/.gh-notifier-read-notifications` and walks the batch in order.
  - Each item's identifier (`id` followed by `updated_at`) is added to the new list.
  - An item whose identifier occurs as a substring of the stored text is skipped.
  - Every other item is announced, with title `New Github Notification`, the reason with `_` turned into spaces as subtitle, the subject title as message, and the click URL.
  - The first URL panic or display failure ends the run before anything is saved.
  - Otherwise the whole list of identifiers is saved.
- **The identifier file** (`FileOperations.FileSystem`).
  - The filesystem is a map from path to content.
  - `get_persistence_file_path` creates the file empty when it is missing.
  - `get_local_ids` reads a missing file as `""`.
  - `save_local_ids` writes nothing for no identifiers, the identifier itself for one, and the identifiers joined by `,` for more.
- **Desktop notification command** (`Notify`).
  - On Linux it is `notify-send "<title> (<subtitle>)" "<message>"`.
  - Elsewhere it is `terminal-notifier -title … -subtitle … -message … -sound …`, followed by `-open "<url>"` only when there is a URL.
  - For terminal-notifier, `[` and `]` are deleted from the message first.
- **Argument dispatch** (`Cli.GetArgs`, and the launchd-only copy `Util.ParseArgs`).
  - `start` or `stop` as the first argument issues the service commands and tells the program to exit.
  - The service is a systemd user timer on Linux and a launchd agent on macOS.
  - Anything else lets the poll run.

Outside effects are parameters:
- the display is an oracle `accepts: Dispatch -> bool`;
- whether a write succeeds is `writeOk`;
- `$HOME` is `home`;
- the build target is a `TargetOs`;
- the results of shell commands are `succeeded: string -> bool`, and the dispatcher ignores them.

The Rust string primitives are modelled over `seq<char>` in the `Strings` module: `split` on one character, `join`, `contains` on a string, and `replace` of one character.

Behaviours of the code worth knowing, which the model keeps:
- An empty identifier list writes nothing: the file is not emptied, and the old content stays (`FileOperations.FileSystem.SaveLocalIds`).
- A subject URL with fewer than four segments panics; this is modelled as the error `MalformedUrl`.
- `notifier.rs` keeps its identifiers in `.gh-notifier-read-notifications`, while the unused `util.rs` path is `.gh-read-notification-ids` (`Util.PersistencePathsDiffer`).
- The seen test is a substring test on the raw file text, not membership in the stored list. `Notifier.SubstringSeenTestIsLooserThanMembership` shows the consequence: a notification is treated as seen when its identifier is a suffix of a saved one and the update times are equal. `Notifier.UpdateHiddenByAnotherSavedIdentifier` shows that an updated notification can be hidden the same way.

## Model

| member | source | states |
|---|---|---|
| Strings.Join | src/notifier.rs:86 | `join`: the pieces with the separator between neighbours, `""` for no pieces (its properties are the round-trip rows below) |
| Strings.Replace | src/notifier.rs:85-86 | reference definition: every occurrence of one character replaced by another, all other characters in place |
| Strings.IsSubstring | src/notifier.rs:78 | `contains` on a string: the needle occurs at some position of the haystack |
| Strings.Split | src/notifier.rs:50 | `split('/')` yields at least one piece, and no piece contains the separator |
| Strings.Without | src/notify/src/lib.rs:32-34 | deleting characters never lengthens the message and leaves none of the deleted characters |
| Strings.SplitJoinRoundTrip | src/notifier.rs:85-86 | joining the pieces of a split with the same separator gives the string back |
| Strings.JoinSplitIsReplace | src/notifier.rs:85-86 | splitting on one character and joining with another replaces every occurrence |
| Strings.JoinSplitRoundTrip | src/file_operations.rs:23-25 | separator-free pieces joined by the separator split back into the same pieces |
| Strings.PieceIsSubstringOfJoin | src/file_operations.rs:24 | every piece occurs as a substring of the joined string |
| Strings.SubstringOfEmpty | src/file_operations.rs:15 | only the empty string occurs in `""` |
| Strings.WithoutTwice | src/notify/src/lib.rs:33-34 | deleting one set of characters, then another, equals deleting both at once |
| Strings.WithoutIdempotent | src/notify/src/lib.rs:33-34 | deleting the same characters twice equals deleting them once |
| Strings.WithoutKeepsOthers | src/notify/src/lib.rs:33-34 | every character not deleted is kept as often as it occurs |
| Strings.WithoutAppend | src/notify/src/lib.rs:33-34 | deletion distributes over concatenation |
| FileOperations.CreateIfAbsent | src/file_operations.rs:6-8 | the filesystem after creating the file: unchanged if the path exists, otherwise the path added with empty content |
| FileOperations.Serialize | src/file_operations.rs:20-26 | what is written: nothing for no ids, `ids[0]` for one id, the `,`-join for more |
| FileOperations.Saved | src/file_operations.rs:19-28 | the filesystem after saving: the serialised content at the path when there is something to write and the write succeeds, unchanged otherwise |
| FileOperations.PersistenceFilePath | src/file_operations.rs:4-5 | the path is `home`, then `/`, then the file name, with exactly that length |
| FileOperations.FileSystem.GetPersistenceFilePath | src/file_operations.rs:3-10 | returns `home + "/" + filename`; the file exists afterwards, with its old content or empty; no other file changes |
| FileOperations.FileSystem.GetLocalIds | src/file_operations.rs:12-17 | the file's content verbatim when it exists, `""` when it cannot be read |
| FileOperations.FileSystem.Write | src/file_operations.rs:22 | a successful write replaces exactly that file's content; a failed write reports the path and changes nothing |
| FileOperations.FileSystem.SaveLocalIds | src/file_operations.rs:19-28 | no ids: success and no write; one id: it is written as it is; more: they are written joined by `,`; a failed write is returned |
| FileOperations.SerializeIsJoin | src/file_operations.rs:21-25 | for every non-empty list both writing branches write the `,` join |
| FileOperations.SerializedContainsEveryId | src/file_operations.rs:21-25 | every saved id occurs as a substring of what is written |
| FileOperations.SerializeRoundTrip | src/file_operations.rs:21-25 | ids without commas are recovered by splitting the written content on `,` |
| Notifier.BuildPullOrIssueUrl | src/notifier.rs:46-67 | `None` gives `""`; the result is a failure exactly when the URL has fewer than four `/`-segments, and the failure names the URL |
| Notifier.UrlKind | src/notifier.rs:52-56 | `issues` when some segment equals `issues`, otherwise `pull` |
| Notifier.UrlKindIff | src/notifier.rs:52-56 | the kind is `issues` or `pull`, and `issues` exactly when some segment equals `issues` |
| Notifier.RebuiltUrlSegments | src/notifier.rs:57-63 | the rebuilt URL splits into `https:`, `""`, `github.com`, the fourth-last and third-last segments, the kind, and the last segment |
| Notifier.HtmlUrlSegments | src/notifier.rs:57-63 | a GitHub page URL built from separator-free parts splits back into exactly those parts |
| Notifier.HtmlUrlIsFixedPoint | src/notifier.rs:46-67 | rebuilding an already rebuilt URL gives it back unchanged |
| Notifier.IssueApiUrl | src/notifier.rs:46-67 | `https://api.github.com/repos/<o>/<r>/issues/<n>` becomes `https://github.com/<o>/<r>/issues/<n>` |
| Notifier.PullApiUrl | src/notifier.rs:46-67 | `…/repos/<o>/<r>/pulls/<n>` becomes `https://github.com/<o>/<r>/pull/<n>` when no segment is `issues` |
| Notifier.ApiUrlSegments | src/notifier.rs:50 | an API URL splits into scheme, host, `repos`, owner, repo, kind and number |
| Notifier.Identifier | src/notifier.rs:75-76 | the identifier of a notification: its `id` followed by its `updated_at` |
| Notifier.AlreadyRead | src/notifier.rs:78 | the seen test: the identifier occurs as a substring of the stored text |
| Notifier.Unread | src/notifier.rs:74-80 | the items of the batch that are not seen, in batch order |
| Notifier.Identifiers | src/notifier.rs:75-77 | one identifier per notification, in order, each `id` followed by `updated_at` |
| Notifier.UnreadMembers | src/notifier.rs:78-80 | an item is announced iff its identifier is not a substring of the stored text |
| Notifier.UnreadAppend | src/notifier.rs:74-80 | filtering a concatenated batch filters each part, keeping the batch order |
| Notifier.UnreadKeepsOrder | src/notifier.rs:78-80 | when nothing was seen, every item is announced, in batch order |
| Notifier.UnreadAllRead | src/notifier.rs:78-80 | when everything was seen, nothing is announced |
| Notifier.Subtitle | src/notifier.rs:85-86 | the subtitle is the reason with every `_` replaced by a space, and has the reason's length |
| Notifier.ReplaceLength | src/notifier.rs:85-86 | replacing one character by another keeps the length |
| Notifier.SubtitleWithoutUnderscore | src/notifier.rs:85-86 | a reason without `_` is its own subtitle |
| Notifier.SubtitleOfTwoWords | src/notifier.rs:85-86 | `a_b` becomes `a b` |
| Notifier.ToDispatch | src/notifier.rs:82-86 | the notification for an item: fixed title, the subtitle from the reason, the subject title as message, the click URL; or the URL's failure |
| Notifier.FailsWith | src/notifier.rs:84-88 | how an item fails: its URL is malformed, or the display rejects its notification |
| Notifier.Announce | src/notifier.rs:74-89 | announcing the items in order, collecting the shown notifications, until the first item that fails |
| Notifier.AnnounceShape | src/notifier.rs:74-89 | what is shown is the prefix of accepted notifications, in order; either all were shown, or the next one is the one that failed, and the error says how |
| Notifier.AnnounceSucceedsIff | src/notifier.rs:84-88 | no failure iff every item has a well-formed URL and the display accepts its notification |
| Notifier.AnnounceAppend | src/notifier.rs:74-89 | announcing a concatenation announces the first part, then the second only if the first did not fail |
| Notifier.AnnounceSingle | src/notifier.rs:84-88 | one item fails on its URL, fails in the display, or is shown |
| Notifier.AnnounceStep | src/notifier.rs:74-89 | one more item of the batch is skipped when seen, and otherwise is announced after the earlier ones |
| Notifier.StopsWholeRun | src/notifier.rs:88 | a failure in the first `i + 1` items is the outcome of the whole batch |
| Notifier.UnreadStopsEarly | src/notifier.rs:88 | items after the first failing one are not announced |
| Notifier.AnnounceStopsEarly | src/notifier.rs:88 | once announcing fails, appending more items changes nothing |
| Notifier.AnnounceBatch | src/notifier.rs:72-89 | the loop shows exactly the notifications the plan shows and stops with the plan's error; when it completes, the id list is the identifier of every item, seen or not |
| Notifier.NotifyAll | src/notifier.rs:69-93 | the file is created if missing and read; after a failure, that error is returned and nothing is saved; otherwise the whole identifier list is saved and a failed write is returned |
| Notifier.RerunIsQuiet | src/notifier.rs:78 | after a successful save, running the same batch again announces nothing |
| Notifier.FirstRunAnnouncesAll | src/notifier.rs:71-80 | with an empty or missing file, every notification with a non-empty identifier is announced, in order |
| Notifier.SavedIsSeen | src/notifier.rs:78 | every saved identifier is seen by the next run |
| Notifier.UpdatedNotificationIsNew | src/notifier.rs:75-80 | after a run whose only saved identifier was the earlier one, the same notification with a different `updated_at` of equal length is announced again |
| Notifier.UpdateHiddenByAnotherSavedIdentifier | src/notifier.rs:78 | after the batch `142`/`T`, `42`/`U` was saved, `42` updated to `T` is not announced, because `42T` occurs inside `142T` |
| Notifier.SubstringSeenTestIsLooserThanMembership | src/notifier.rs:78 | an identifier that is a suffix of a saved one, with the same update time, counts as seen though it is not in the saved list |
| Notify.Notify | src/notify/src/lib.rs:22-28 | Linux produces the notify-send command; every other target produces the terminal-notifier command for the sanitised message |
| Notify.TerminalNotifierLine | src/notify/src/lib.rs:37-48 | `terminal-notifier` with the quoted `-title`, `-subtitle`, `-message` and `-sound` options, then `-open "<url>"` when the URL is not empty |
| Notify.NotifySendCommand | src/notify/src/lib.rs:51-57 | `notify-send "<title> (<subtitle>)" "<message>"`, with the message as given; sound and URL are not used |
| Notify.TerminalNotifierCommand | src/notify/src/lib.rs:30-49 | the command is terminal-notifier with the four quoted options for the message without brackets, plus `-open` when there is a URL |
| Notify.SanitisedHasNoBrackets | src/notify/src/lib.rs:19 | the sanitised message contains no `[` and no `]` |
| Notify.SanitiseIdempotent | src/notify/src/lib.rs:32-34 | sanitising twice equals sanitising once |
| Notify.SanitiseKeepsOthers | src/notify/src/lib.rs:32-34 | every other character is kept as often as it occurs; a message without brackets is unchanged |
| Notify.SanitiseKeepsOrder | src/notify/src/lib.rs:32-34 | sanitising works left to right, dropping only brackets, so kept characters stay in order |
| Notify.OpenOptionOnlyWithUrl | src/notify/src/lib.rs:37-45 | with a URL the command is the command without `-open`, followed by ` -open "<url>"`; without one it is exactly the four options |
| Notify.TerminalCommandCarriesMessage | src/notify/src/lib.rs:37-48 | the sanitised message appears in the terminal-notifier command |
| Notify.NotifySendCarriesMessage | src/notify/src/lib.rs:51-57 | the unsanitised message appears in the notify-send command |
| Cli.StartService | src/cli.rs:4-22 | the commands `start_service` runs, in order: start then enable the systemd timer on Linux, load the launchd agent on macOS |
| Cli.StopService | src/cli.rs:10-30 | the commands `stop_service` runs, in order: stop then disable the systemd timer on Linux, unload the launchd agent on macOS |
| Cli.GetArgs | src/cli.rs:32-48 | consumed exactly when there are two or more arguments and the first is `start` or `stop`; `start` issues the start commands, `stop` the stop commands, anything else issues nothing |
| Cli.GetArgsIgnoresCommandResults | src/cli.rs:38-45 | the outcome does not depend on whether the service commands succeed |
| Cli.LinuxServiceOrder | src/cli.rs:4-14 | Linux `start` runs the timer's start then enable; `stop` runs stop then disable |
| Cli.ConsumedIffIssued | src/cli.rs:32-48 | exactly the consumed invocations issue service commands |
| Util.StopService | src/util.rs:14-19 | `launchctl unload` followed by the agent's property list path |
| Util.StartService | src/util.rs:21-23 | `launchctl load` followed by the agent's property list path |
| Util.ParseArgs | src/util.rs:25-41 | consumed exactly for `start` or `stop`; `stop` issues only the unload command, `start` only the load command, anything else nothing |
| Util.ParseArgsIsMacOSGetArgs | src/util.rs:14-41 | this dispatcher is the macOS build of `get_args` |
| Util.BuildPullOrIssueUrl | src/util.rs:43-64 | the by-value copy: `None` gives `""`, and the result is a failure exactly when there are fewer than four segments |
| Util.BuildPullOrIssueUrlAgrees | src/util.rs:43-64 | both URL builders agree on every input |
| Util.GetPersistenceFilePath | src/util.rs:66-74 | the path is `home + "/.gh-read-notification-ids"`, created empty if missing |
| Util.PersistencePathsDiffer | src/util.rs:68 | this path is never the one `notify_all` uses |

## Left out

- HTTP requests and JSON decoding (`src/request.rs`): a `Notification` is an input value.
- Token lookup (`src/token.rs`) is an environment read with no logic.
- The async orchestration in `src/main.rs`, and the error wrapping and formatting in `src/errors.rs`.
- Process execution (`src/command_line/src/lib.rs`): commands are returned as strings, or listed as issued, and never run.
- `NotificationBuilder` is not part of this model. Its `build()`/`notify()` are the display oracle `accepts`. `notify_error` and the body of `new_github_notification` are therefore not modelled beyond that oracle.
- The missing-`$HOME` panic and the panic when the file cannot be created: `home` is a parameter, and creation always succeeds.
- A read error other than a missing file: the model reads only missing files as `""`.
- A failed write is modelled as changing nothing. A partial write is not modelled.
- Targets other than Linux and macOS, and the boolean that the macOS service functions return.
- FileOperations.FileSystem.SaveLocalIds: does not model why a write fails; the caller supplies `writeOk`.
- Notifier.UpdatedNotificationIsNew: stated only for update times of equal length, and only when the earlier identifier is the only one saved. With the substring test, a shorter new identifier can still occur inside the stored one, and another saved identifier can hide the update (`Notifier.UpdateHiddenByAnotherSavedIdentifier`).
