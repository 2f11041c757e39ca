# Verified model of the admin backend's core protocols and codecs

This project models, in Dafny, the parts of the Rust admin backend whose
correctness rests on more than one function: the protocol by which a command run
is executed, retried and cancelled; the registry, reconciliation, pruning and
output log of the project's own command line; the menu fixture's merge into an
existing table and the menu tree; the quoting and encoding of arguments, task
files and addresses; and two fast forms that must agree with simple ones, the
pruned rate limiter and the truncated output tail.

`dafny verify dfyconfig.toml` checks everything.

## How the parts are modelled

Concurrent protocols are step systems. One step is one lock section, one await,
one database statement or one event of a process, so that every interleaving is
a sequence of steps (`After`), and a theorem about every reachable state or
every such sequence is a theorem about every interleaving. Code that works by
changing things in place is a method or a class: the rate limiter's buckets, the
output tail, the log writer with its deque and counters, the menu table, the
pending slots of the command sort, and the loops of the quoting and percent
codecs and of the tokenizer. Each is proved against a specification function,
and what the code promises is proved about that function. Tables are maps from
key to row (or a sequence ordered by number); ids that a database generates,
clock readings, and the success of a statement are inputs.

| file | what it models |
|---|---|
| `CommandRun`, `CommandRunInvariant`, `CommandRunTheorems`, `CommandRunOutcome` | one runner task and any number of concurrent `cancel_run` calls |
| `ProjectCliRuns`, `ProjectCliRunTheorems` | live processes, crash reconciliation and history pruning of command-line runs |
| `RollingLog`, `LogReader` | the bounded log of a run's output, and a reader that polls it while it is written and trimmed |
| `CommandTree` | the in-place sort that puts every command before its subcommands |
| `MenuRows`, `MenuOrder`, `MenuSync`, `MenuTree` | parent chains, fixture order, identity-based merge, tree of a user's menus |
| `Text`, `XmlText`, `WindowsArguments` | scheduled-task arguments: Windows quoting inside XML |
| `ShellWords`, `ShellTokenLaws` | displayed command lines, read by a POSIX shell and by the repository's tokenizer; what that tokenizer reads in general |
| `PercentEncoding`, `StaticHosting` | addresses of hosted files and the choice of the serving site |
| `Utf8`, `OutputTail` | the stored tail of a command's output |
| `RateLimit` | the sliding-window limiter |

### Where the code does less than one might expect

- Entering a run in the cancelled set makes the run end cancelled in every
  continuation exactly when the mark is not set in the short window after a
  failed spawn: from the runner's last look for a cancel until it clears the
  mark, and after that while a cancel call that finds no sender is about to clear
  it (`MarkedRunEndsCancelled`, both directions).
  `MarkLostToSpawnError` gives a run that reaches the window.
- The program name of a displayed command line is shown unquoted. Every list of
  arguments survives a POSIX shell exactly when the name is not empty and all its
  characters stand for themselves (`ProgramSurvives`). The repository's own
  tokenizer reads a line back exactly when no argument is empty or contains a
  backslash (`TokensRoundTrip`), and that holds for exactly the program names
  without backslashes, quotes and whitespace (`ReadablePrograms`).
- The pruned rate limiter agrees with the full history, for all times and limits,
  exactly when no window after a key's first call is wider than an earlier one
  after the first call (`PruningChangesNoDecision`, both directions). For every
  other list of windows `WideningForgets` gives calls under one positive limit
  on which the two differ.
- A file's public address leads back to the file exactly when the site's own path
  has no percent sign, the location is not under a reserved prefix and no other
  enabled site with a longer path holds it (`FileUrlIsRouted`, both directions).
- The writer of a run's log ignores failed deletes, and a failed insert loses its
  rows without setting `truncated` (`FailedInsertIsSilent`). Whatever has failed,
  the stored rows are what the limit leaves of all rows exactly when no row that
  should be there is lost and every dropped row is deleted or lost
  (`TableIsExact`); the next successful delete removes what earlier ones left
  over (`SuccessfulRound`).

### Assumptions

- Killing, waiting and database statements of the command runner succeed;
  spawning may fail. The run is registered before the first cancel arrives.
- Statements of command-line runs and of the log writer may fail. Ids of runs
  grow and are never reused. A restart ends every process of the server.
- Text is valid UTF-8 where Rust's `str` guarantees it. Clocks are monotone.
- Splitting rules: for Windows the Microsoft C runtime's rules for arguments
  after the program name; for shells section 2.2 (Quoting) of the POSIX.1-2017
  Shell Command Language, where a character that may need quoting is taken to
  need it, except those that `format_command_line` leaves unquoted; for XML the
  predefined entities of section 4.6 of XML 1.0; for addresses sections 2.1 and
  2.3 of RFC 3986.

## Model

| member | source | states |
|---|---|---|
| CommandRunInvariant.RunnerKeepsInv | src/services/command_runner.rs:287-395 | every step of the runner, in any state of the shared registries, keeps the invariant |
| CommandRunInvariant.CallerKeepsInv | src/services/command_runner.rs:202-264 | every step of every concurrent cancel call keeps the invariant |
| CommandRunTheorems.AnsweredCancelIsFinal | src/services/command_runner.rs:341-395 | once the runner has answered a cancel, every shell it spawned is reaped, and after any further steps no attempt was spawned and the row, when final, is cancelled |
| CommandRunTheorems.MarkedRunEndsCancelled | src/services/command_runner.rs:330-471 | a run marked cancelled before the runner's last look at the mark ends cancelled in every continuation if and only if the state is not one in which the spawn has failed, the runner has looked for a cancel after it, and its own clearing of the mark, or that of another cancel call, is still ahead |
| CommandRunTheorems.EarlyMarkIsKept | src/services/command_runner.rs:359-373 | until the runner judges a failed spawn no mark can be lost, so a mark set before the spawn never is |
| CommandRunTheorems.MarkLostToSpawnError | src/services/command_runner.rs:463-470 | the window is reached: a run in which the mark is set, the spawn has failed, and the row ends failed |
| CommandRunTheorems.StatusMovesForward | src/services/command_runner.rs:677-741 | a step leaves the status, or moves it queued to running or cancelled, or running to a terminal status |
| CommandRunTheorems.TerminalStatusStays | src/services/command_runner.rs:202-247 | no sequence of steps, late and duplicate cancels included, changes a terminal status |
| CommandRunTheorems.FinalStatus | src/services/command_runner.rs:424-471 | unless a cancel overrode it, a last shell that exited with 0 makes the run a success, any other exit, a timeout or a failed spawn a failure; the exit code stored is that of the last shell, and none after a timeout, a failed spawn or a cancel |
| CommandRunOutcome.UncancelledRun | src/services/command_runner.rs:424-471 | a run that nobody tries to cancel is never cancelled: it is a success if and only if its last shell exited with 0, and else failed |
| CommandRunOutcome.CancelStopsShell | src/services/command_runner.rs:202-247 | while a shell runs that nobody has tried to cancel, steps of one caller and the runner alone kill it with its group, make the run cancelled and return that status |
| CommandRunOutcome.TimeoutStopsShell | src/services/command_runner.rs:544-577 | a timeout that fires on a shell nobody tries to cancel kills it with its group and ends the run as failed, whatever retries remain |
| CommandRunOutcome.TimeoutsAreSet | src/services/command_runner.rs:544-551 | a run only times out when it has a timeout |
| CommandRunTheorems.RepliesAreTrue | src/services/command_runner.rs:202-264 | a status returned by a cancel call is the row's final status for ever; no request is lost while the run is live; "no active process" is only said of a run that could not be spawned |
| CommandRunTheorems.RegistriesEmptyAtRest | src/services/command_runner.rs:1051-1100 | when the runner is done and every cancel has returned, the run is in neither registry |
| CommandRunTheorems.RunnerProgress | src/services/command_runner.rs:494-510 | a runner that is not done can always step, unless it waits for a request that is not sent yet |
| CommandRunTheorems.BlockedBehindSender | src/services/command_runner.rs:494-510 | whenever the runner waits so, some cancel call has set the mark and its next one or two steps deliver the request |
| CommandRunTheorems.RetriesAreBounded | src/services/command_runner.rs:330-395 | at most max_retries + 1 attempts are spawned, or 1 without retries; all but the last failed with their group killed; the stored count is the number spawned, or one more if the last was cancelled or failed before spawning |
| CommandRunOutcome.RetriesAreExhausted | src/services/command_runner.rs:94-116 | an execution that ends with a failed shell has made exactly max_retries + 1 attempts, or 1 without retries |
| CommandRunTheorems.SpawnsOnlyAfterFailure | src/services/command_runner.rs:94-116 | an attempt is spawned only when every earlier one failed and its process group is gone |
| CommandRunTheorems.RunnerTerminates | src/services/command_runner.rs:330-395 | in no interleaving does the runner take more than 18 steps a retry and 29 more |
| ProjectCliRuns.StepKeepsInv | src/services/project_cli.rs:1159-1211 | every step of every call, driver or restart keeps the invariant of lock, registry, rows and pending cutoffs |
| ProjectCliRunTheorems.AtMostFourLive | src/services/project_cli.rs:1461-1512 | in every interleaving at most four runs are live, and these are the runs that have a driver |
| ProjectCliRunTheorems.RefusedExactlyWhenFull | src/services/project_cli.rs:1466-1471 | a spawn is refused exactly when four runs are live |
| ProjectCliRunTheorems.LockIsReleased | src/services/project_cli.rs:1466-1497 | whoever holds the registry's lock can release it in at most two steps of its own |
| ProjectCliRunTheorems.SpawnStarts | src/services/project_cli.rs:1461-1512 | a spawn below the limit adds exactly one running row under a new id, makes that run live and starts its process |
| ProjectCliRunTheorems.AtMostOneVerdict | src/services/project_cli.rs:1359-1376 | a run receives at most one terminal status over any run of the system, and what was final stays |
| ProjectCliRunTheorems.WhoWrites | src/services/project_cli.rs:1359-1376 | a status changes only by the run's driver, to what its process came to, or by a reconciliation that fails a run without a process |
| ProjectCliRunTheorems.CancelledWasAsked | src/services/project_cli.rs:1605-1612 | for every cancelled row the run of the system contains an earlier notification of its cancel, by a call that had found it in the registry |
| ProjectCliRunTheorems.CancelReachesRun | src/services/project_cli.rs:1605-1611 | a cancel call for a live run notifies it and changes nothing else |
| ProjectCliRunTheorems.CancelOfDeadRun | src/services/project_cli.rs:1605-1611 | a cancel call for a run without a process fails its row if that still says running, and leaves it alone otherwise |
| ProjectCliRunTheorems.ProcessIsCancelled | src/services/project_cli.rs:1423-1444 | a process that is stopped for its cancel and whose result is recorded frees exactly its own place and leaves a cancelled row |
| ProjectCliRunTheorems.ProcessFinishes | src/services/project_cli.rs:1339-1377 | a process that ends on its own and whose result is recorded frees exactly its own place and leaves its own verdict |
| ProjectCliRunTheorems.ReconcileIsExact | src/services/project_cli.rs:1172-1193 | a reconciliation fails exactly the running rows without a process; afterwards every running row is live |
| ProjectCliRunTheorems.RestartRecovers | src/services/project_cli.rs:1172-1193 | after a restart one reconciliation fails every row that was running and changes no other |
| ProjectCliRunTheorems.OnlyOldFinishedRowsGo | src/services/project_cli.rs:1196-1211 | no step of any interleaving loses a running row or one of the 500 newest, however many prunes and spawns overlap |
| ProjectCliRunTheorems.PruneIsExact | src/services/project_cli.rs:1196-1211 | an undisturbed prune keeps exactly the running rows and the 500 newest |
| ProjectCliRunTheorems.CutoffExists | src/services/project_cli.rs:1197-1202 | the cutoff query has exactly one answer |
| RollingLog.MergeLines | src/services/project_cli.rs:1222-1233 | the loop computes the merged rows of the specification |
| RollingLog.MergedKeepsText | src/services/project_cli.rs:1222-1233 | merging keeps every byte, in order, on its stream |
| RollingLog.MergedIsGreedy | src/services/project_cli.rs:1222-1233 | a row ends only at a change of stream or at 16 KiB, which it exceeds by less than one line |
| RollingLog.TrimIsLongest | src/services/project_cli.rs:1279-1286 | the limit keeps the longest end of the log within 2 MiB, and the newest row in any case |
| RollingLog.TrimAbsorbs | src/services/project_cli.rs:1279-1293 | trimming batch by batch keeps the same rows as trimming the whole log once |
| RollingLog.LogWriter.Number | src/services/project_cli.rs:1255-1271 | a batch becomes consecutively numbered rows, counted and entered in the deque |
| RollingLog.LogWriter.Shrink | src/services/project_cli.rs:1279-1286 | the popping loop leaves exactly the trimmed rows in the deque and reports the last number dropped |
| RollingLog.LogWriter.Store | src/services/project_cli.rs:1244-1311 | one round, whichever of its three statements succeed: all rows made are numbered on, the table is what deletes and failed inserts have left of them, a failed insert leaves table and figures alone, a delete takes exactly the dropped rows, the run's figures are written if that statement succeeds |
| RollingLog.TableIsExact | src/services/project_cli.rs:1272-1293 | after any failures the table holds exactly what the limit leaves of all rows made if and only if no kept row is lost and every dropped row is deleted or lost |
| RollingLog.SuccessfulRound | src/services/project_cli.rs:1279-1293 | a round whose insert and delete succeed keeps an exact table exact, and when it drops rows it makes the table exact whatever failed before, unless a kept row is lost |
| RollingLog.MissingRows | src/services/project_cli.rs:1287-1288 | truncated says exactly whether a row was dropped; the table lacks a row exactly when one was deleted or lost |
| RollingLog.AfterEveryBatch | src/services/project_cli.rs:1237-1314 | while no kept row is lost and no dropped row left over, stored rows are a contiguous block ending at last_seq, their text is the end of everything received, bytes is their size and within 2 MiB unless one row remains, truncated says exactly whether a row was dropped |
| LogReader.StepKeepsInv | src/services/project_cli.rs:1272-1293 | appends, deletes and polls in any order keep the reader's picture of the log exact |
| LogReader.ReaderSees | src/services/project_cli.rs:1575-1603 | the reader sees strictly ascending numbers, nothing twice, and up to where it is exactly the rows not deleted before it reached them |
| LogReader.MissedWasDropped | src/services/project_cli.rs:1287-1293 | for whatever the reader missed, the run contains a delete of it at a moment when the reader had not reached it |
| LogReader.CompleteReader | src/services/project_cli.rs:1585-1598 | a reader that lost nothing and has caught up has the whole log |
| LogReader.PollAdvances | src/services/project_cli.rs:1585-1590 | every poll brings the reader a thousand rows nearer to the end of the log, or there |
| LogReader.WriterRound | src/services/project_cli.rs:1237-1314 | every round of the writer, whichever statements succeed, is nothing, an append, or an append and a delete in the reader's system, so the reader's theorems hold beside this writer |
| RollingLog.FailedInsertIsSilent | src/services/project_cli.rs:1272-1278 | a failed insert on any log that is not truncated leaves the table without its rows, and truncated false |
| CommandTree.Visit | src/services/project_cli.rs:639-655 | nothing is lost or repeated between output and slots; with distinct paths and everything below pending the output grows by exactly the block of the prefix |
| CommandTree.BlockIsPreorder | src/services/project_cli.rs:639-655 | in a block every command is followed at once by everything below it |
| CommandTree.BlockKeepsSiblings | src/services/project_cli.rs:639-655 | in a block commands with the same parent keep their input order |
| CommandTree.SortTree | src/services/project_cli.rs:638-661 | the sort terminates with a permutation of its input, a preorder with siblings in input order when the paths are distinct, non-empty and prefix-closed; with distinct paths in any case the commands that hang together from the top come first, so sorted, and all others behind them in input order |
| MenuOrder.OrderMenuRows | src/tasks/admin.rs:319-345 | succeeds exactly when ids are distinct and every parent chain reaches a root; the result is a permutation with parents first, and the input itself when that has parents first; duplicates and unrooted rows are told apart |
| MenuOrder.StuckMeansUnrooted | src/tasks/admin.rs:339-343 | a pass without progress means some row has no chain to a root |
| MenuSync.MenuTable.SyncMenu | src/tasks/admin.rs:365-415 | a row with a path is stored in place of the one menu with that path, whatever its title and parent; a row without a path in place of the one menu without a path that has its title and parent; with no such menu under the fixture's id, or a generated one when that is taken; with several it is refused as ambiguous and nothing changes |
| MenuSync.WhatMatches | src/tasks/admin.rs:369-383 | the menus with a row's identity are those with its path, or for a row without a path those without one that have its title and parent |
| MenuSync.MenuTable.SyncMenuLayout | src/tasks/admin.rs:347-363 | success is a whole layout; an unorderable fixture is refused exactly when it has no order; every other refusal stops at a row whose identity is not settled |
| MenuSync.LayoutIsFaithful | src/tasks/admin.rs:347-415 | the id map is total and injective; mapped menus carry the fixture's content under the mapped parent; a menu that was there before is reused if and only if it had the path of the row or, without paths, its title and mapped parent; every other menu is unchanged |
| MenuSync.IdentityIsUnique | src/tasks/admin.rs:369-388 | after a layout the identity of each fixture row finds exactly the menu it is mapped to |
| MenuSync.SettledNeverRefuses | src/tasks/admin.rs:347-363 | a layout of the same rows on its own result is never refused |
| MenuSync.SecondLayoutIsIdle | src/tasks/admin.rs:347-415 | a second layout, with the rows in any order, gives the same map and changes nothing |
| MenuSync.SyncTwice | src/tasks/admin.rs:347-415 | running the sync twice, rows reordered and other ids on offer, succeeds with the same map and the same table |
| MenuRows.ChainIsUnique | src/models/rbac.rs:404-428 | with distinct ids there is at most one chain of parents from a root to a row |
| MenuRows.ChainIsShort | src/models/rbac.rs:404-428 | a chain is no longer than the input, which bounds the recursion even when other rows form cycles |
| MenuTree.BuiltIsWellPlaced | src/models/rbac.rs:404-428 | below every parent stand exactly its rows, in input order, all the way down |
| MenuTree.ChildrenKeepOrder | src/models/rbac.rs:390-402 | grouping by parent keeps the order of the input, stated by positions in it |
| MenuTree.TreeIsExact | src/models/rbac.rs:404-428 | the tree contains exactly the rows whose parent chain reaches a root, each once, whatever cycles or dangling parents the rest has |
| MenuTree.BuildMenuTree | src/models/rbac.rs:390-402 | the grouping loop and the recursion together build that exact tree |
| XmlText.EscapeOne | src/service_manager.rs:522-529 | the five passes together replace each character by its own entity: later passes leave the entities of earlier ones alone |
| XmlText.DecodeEscape | src/service_manager.rs:522-529 | decoding the predefined entities gives every string back |
| XmlText.EscapedHasNoMarkup | src/service_manager.rs:522-529 | escaped text contains no angle bracket and no quote |
| WindowsArguments.WindowsQuoteArgument | src/service_manager.rs:493-519 | the loop with its backslash counter computes the quoted form of the specification |
| WindowsArguments.PlainStays | src/service_manager.rs:493-496 | an argument stays unquoted if and only if it is not empty and has no whitespace and no double quote |
| WindowsArguments.ParseJoined | src/service_manager.rs:459-464 | splitting the joined quoted arguments by the C runtime's rules gives back exactly the list, for all lists |
| WindowsArguments.TaskArgumentsRoundTrip | src/service_manager.rs:458-491 | the same after escaping for XML and decoding again |
| ShellWords.PosixRoundTrip | src/services/project_cli.rs:1031-1047 | a POSIX shell reads a formatted command line back as the program and exactly its arguments, whatever they contain, when each character of the program stands for itself |
| ShellWords.ShellQuoteIsOneWord | src/services/command_runner.rs:976-978 | a quoted value is one word with that value, even when empty |
| ShellWords.PlainStays | src/services/project_cli.rs:1031-1041 | an argument is shown unquoted if and only if it is not empty and has only ASCII letters, digits and the eleven listed characters |
| ShellWords.ProgramSurvives | src/services/project_cli.rs:1043-1046 | all argument lists survive with a program name if and only if it is not empty and each of its characters stands for itself |
| ShellWords.ShellTokens | src/services/http_request_manager.rs:449-488 | the loop over its four variables computes the tokens of the reader function |
| ShellTokenLaws.LineTokens | src/services/http_request_manager.rs:449-488 | words made of bare, single-quoted and double-quoted pieces, with a backslash before every character that needs one and before any other, separated by any whitespace, are read as exactly the texts they stand for |
| ShellTokenLaws.DoubleQuotesKeepArguments | src/services/http_request_manager.rs:464-471 | non-empty arguments in double quotes, with a backslash before each double quote and backslash, come back exactly |
| ShellTokenLaws.BackslashesKeepArguments | src/services/http_request_manager.rs:454-463 | non-empty bare arguments with a backslash before each quote, backslash and whitespace come back exactly |
| ShellTokenLaws.OpenQuoteIsClosed | src/services/http_request_manager.rs:464-488 | a quote left open at the end of the line counts as closed there |
| ShellWords.TokensRoundTrip | src/services/http_request_manager.rs:449-488 | with a program name without backslashes, quotes and whitespace, the repository's tokenizer returns program and arguments if and only if no argument is empty or contains a backslash |
| ShellWords.ReadablePrograms | src/services/http_request_manager.rs:449-488 | that equivalence holds for all argument lists if and only if the program name is of that kind and not empty |
| ShellWords.BackslashIsLost | src/services/http_request_manager.rs:454-463 | an argument with a backslash is never read back as it was, wherever it stands |
| PercentEncoding.PercentEncodeSegment | src/services/static_hosting.rs:685-696 | the loop computes the encoding of the specification |
| PercentEncoding.EncodesStep | src/services/static_hosting.rs:685-696 | slashes, letters, digits, hyphen, period, underscore and tilde stay as they are; every other byte becomes a percent sign and two upper-case hexadecimal digits |
| PercentEncoding.PercentDecodePath | src/services/static_hosting.rs:561-580 | the index loop decodes as specified, with an error for a percent sign without two hexadecimal digits and another for bytes that are not UTF-8 |
| PercentEncoding.DecodesWellEncoded | src/services/static_hosting.rs:561-580 | decoding gives bytes if and only if every percent sign is followed by two hexadecimal digits of either case |
| PercentEncoding.DecodesStep | src/services/static_hosting.rs:565-577 | a percent sign and two digits stand for sixteen times the first and the second, any other byte for itself |
| Utf8.ValidIsEncoding | src/services/static_hosting.rs:579 | the bytes accepted as UTF-8 are exactly the encodings of sequences of Unicode scalar values |
| PercentEncoding.DecodeEncodedPath | src/services/static_hosting.rs:582-596 | decoding undoes the encoding of every path |
| PercentEncoding.EncodedPathIsSafe | src/services/static_hosting.rs:685-696 | an encoded path holds only unreserved characters, percent signs and slashes |
| StaticHosting.UrlDecodes | src/services/static_hosting.rs:561-596 | the public address of a file decodes to the site's path and the file's path if and only if the site's path has no percent sign |
| StaticHosting.MatchesWhatItHolds | src/services/static_hosting.rs:641-652 | a site matches exactly the requests that agree with its path up to the end of a segment |
| StaticHosting.LocationMatches | src/services/static_hosting.rs:641-652 | a site finds a file under its location by exactly its path, unless it is the root site and the path starts with a slash |
| StaticHosting.RelativeIsTheRest | src/services/static_hosting.rs:641-652 | the file found is what follows the site's path and one slash, and for the root site the request without all slashes in front, both ways |
| StaticHosting.MatchIsLongest | src/services/static_hosting.rs:307-318 | a site is found exactly when an enabled one holds the request, and none that does has a longer path |
| StaticHosting.MatchIsUnique | src/services/static_hosting.rs:307-318 | with distinct paths the longest enabled site that holds the request is the one found |
| StaticHosting.OrderDoesNotMatter | src/services/static_hosting.rs:307-318 | the match does not depend on the order of the list |
| StaticHosting.ReservedIsFirstSegment | src/services/static_hosting.rs:555-559 | a path is reserved if and only if its first segment is api, admin, login, public, api-docs, swagger-ui or static |
| StaticHosting.FileUrlIsRouted | src/middleware/static_hosting.rs:53-69 | the public address of a file is routed to that file of that site if and only if the site's path has no percent sign, the location is not reserved and no longer enabled site holds it |
| StaticHosting.NormalizeSites | src/services/static_hosting.rs:204-221 | fails for an invalid site, else succeeds exactly when keys and paths are distinct, with the error that applies, and returns the sites sorted by name |
| StaticHosting.SortIsStable | src/services/static_hosting.rs:219-220 | sorted by name, and those of one name in the order given |
| StaticHosting.NameLeqIsLexicographic | src/services/static_hosting.rs:219-220 | names compare by the first byte that differs, a prefix before its extensions |
| StaticHosting.SortingKeepsRoutes | src/services/static_hosting.rs:219-220 | sorting the sites changes no route |
| OutputTail.TruncateOutputTail | src/services/command_runner.rs:787-797 | the loop that moves the cut computes the tail of the specification |
| OutputTail.RunOutput.UpdateTail | src/services/command_runner.rs:776-785 | after every chunk the stored tail is the tail of everything received |
| OutputTail.TailIsLongest | src/services/command_runner.rs:787-797 | the tail is well-formed, the longest suffix of at most 20000 bytes that starts on a character boundary, at most three bytes short of the limit |
| OutputTail.TailAbsorbs | src/services/command_runner.rs:776-797 | truncating an already truncated tail with more output is truncating everything once |
| OutputTail.ChunkingDoesNotMatter | src/services/command_runner.rs:776-797 | however the output is cut into chunks, the stored tail is that of the whole output |
| RateLimit.RateLimiter.IncrementAndCheck | src/middleware/rate_limit.rs:107-121 | the pruning loop and the push change one bucket as specified and no other, and return its decision |
| RateLimit.DecisionIsExact | src/middleware/rate_limit.rs:107-121 | under a monotone clock and windows that do not widen, the pruned limiter limits a call if and only if the calls it admitted in the closed window before it number at least the limit; a negative limit is 2^64 - 1, a negative window 60 seconds |
| RateLimit.FixedRuleDecision | src/middleware/rate_limit.rs:107-121 | under a fixed rule that is: the calls admitted from now - window seconds to now number at least the limit |
| RateLimit.PruningChangesNoDecision | src/middleware/rate_limit.rs:107-121 | for a list of windows the pruned bucket decides every call as the full history would, for every monotone clock and all limits, and likewise for all positive limits, if and only if no window after the first call is wider than an earlier one after the first call |
| RateLimit.WideningForgets | src/middleware/rate_limit.rs:115-116 | for every list of windows that widens after the first call there are calls under one positive limit on which the two differ |
| RateLimit.NeverMoreThanLimit | src/middleware/rate_limit.rs:107-121 | under a fixed rule no closed interval of window length holds more accepted calls than the limit |
| RateLimit.RealLimiterHonoursLimit | src/middleware/rate_limit.rs:107-121 | the same for the calls the pruned limiter lets through |

## Left out

Parts of the modelled files:

- `mark_stale_runs_failed`: it lists rows and finishes them later without a lock, so it can overwrite a run that finished in between.
- Failures of kill, wait and database statements in the command runner, and cancels between the insert of the row and the registration of its canceller.
- Command log sequence numbers: two streams read and advance them without a lock.
- Process groups beyond "killed", detached grandchildren, pipes and real time: a child is alive, exited with a code or a signal, or killed; timeouts may fire at any moment.
- Timestamps, durations, error messages, exit codes of command-line runs and log text added by the system: not part of the rows that are modelled.
- SQL, transactions and sequence resets: a statement is one step, an error of the menu sync discards the table, a generated id is one that may or may not be taken.
- Integer widths: counters of rows, bytes and ids are unbounded; the limit of 2^31 log rows of one run is not modelled.
- The waiting part of `write_logs` (500 lines or 300 ms a batch): batches are arbitrary non-empty or empty lists of lines.
- `sync_role_menu` and the other fixtures: unconditional grants without an order or an identity.
- Labels, icons and permissions of tree nodes: carried along as the row's content.
- StaticHosting.NormalizeSites: takes what `normalize_site` made of each site as given, accepted or not; the trimming and checks of a single site's fields are not modelled, because each is one branch and only the duplicates and the order concern several sites.
- OutputTail.RunOutput.UpdateTail: is about one writer, because the readers of stdout and stderr read the column and write it back without a lock and can overwrite each other's update.
- Expansion of `*` in a displayed command line, which is left unquoted.
- NUL characters and carriage returns in task arguments, which XML cannot carry unchanged; the program name of a task.
- Several rate rules for one request: an earlier rule counts a request that a later one rejects.

Parts of the repository: help-text scraping and clap reflection, HTML and plist
templates, file-system canonicalization, HTTP clients, object storage,
encryption, mail, migrations, OpenAPI, the frontend, and the small services
(audit rules, log retention, temperature, network watch, settings), whose
properties are mostly facts about one branch.
