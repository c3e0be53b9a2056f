# Verified models of AxiaPanel's state machines and text codecs

This project models, in Dafny, the parts of AxiaPanel whose behaviour is decided by its own code
rather than by the tools it calls: parsers of wire and text formats, the release manager, small
protocols over shared counters and tokens, the terminal's input filter, and the text files that the
panel edits as if they were databases. Each model has the branches, the constants and the error
paths of the Rust code; each main theorem is about every input, every run or every interleaving.

`dafny verify dfyconfig.toml` checks the whole project.

| module | what it models |
|---|---|
| `Text` | the string operations of Rust's standard library that the formats rest on: `find`, `split`, `trim`, `lines`, `join`, `filter`, decimal numbers, each with the laws used elsewhere |
| `Csv` | the SQL console's reader of CSV (section 2 of RFC 4180) and its cut at 1000 rows |
| `Chunked` | the command-line client's reader of chunked bodies (section 7.1 of RFC 9112), with the machine's word size |
| `Ansi` | the removal of terminal escape sequences (section 5.4 of ECMA-48) in the log viewer |
| `Escapes` | the recorder's JSON strings (section 7 of RFC 8259) and the password literals of `ALTER USER` |
| `LineFilter` | the line buffer that follows what is typed into a site terminal, and the shell's line at the other end |
| `Slots` | the counters of terminal sessions and log streams, stepped by atomic operations |
| `TokenRotation` | the agent's bearer token with its grace period, stepped by locks and file operations |
| `Supervisor` | the restart loop with exponential backoff |
| `Releases` | deploys, rollbacks, pruning and the `current` link, stepped by changes of the disk |
| `Crontab` | the root crontab with the panel's marked lines, its two readers, and the sync |
| `CrontabRuns` | removals, and runs of syncs and removals with reads that fail |
| `EnvFiles` | the reader of `.env` files and one edit by an installer |
| `EnvChains` | the installers' chains of edits |
| `EnvPanel` | the panel's own writer of `.env` files |
| `NginxRedirects` | a site's redirect rules as lines of configuration |
| `NginxAuth` | a site's password-protected paths as blocks, and the loop that counts braces to remove one |
| `Postfix` | the five editors of `main.cf` and their requests |
| `PostfixSettings` | the settings that the requests write |
| `PostfixRuns` | runs of requests |
| `PostfixStatus` | the status pages that read it |
| `PostfixMarks` | the status pages when relay hosts may hold the rate limit's mark |
| `SiteScan` | sorting and merging the nginx sites of an export |

The code that changes things in place is modelled in place: `LineFilter.Terminal`,
`Releases.SiteDirectory` and `TokenRotation.Agent` are classes whose methods are proved against the
step functions that the theorems over runs are about, and the loops of `Csv`, `Chunked`, `Ansi`,
`Supervisor`, `Crontab`, `EnvFiles`, `NginxAuth` and `SiteScan` are methods proved against recursive
functions. What the outside world decides (whether a clone succeeds, a file can be written, nginx
accepts a configuration, how long a task lives, how a directory is ordered) is a parameter.

A definition that an operation and its theorem share is fixed on its own as well, by laws for all inputs that
write characters, codes and numbers out: what each key does to the line buffer (`LineFilter.OneKeyScanned`),
which escape sequences go (`Ansi.ControlSequenceGoes`), for how long a replaced token is accepted
(`TokenRotation.AcceptedForOneMinute`), how many releases stay (`Releases.DeployKeepsRequested`), which argument
belongs to which key (`EnvChains.LaravelKeyByKey`), and so on for each format.

Several statements of the design turn out to hold only under a condition. Such a theorem says
exactly when, with a condition on the input:

- a single cell that starts like a PostgreSQL command tag is not shown as a table (`Csv.RoundTripExactly`);
- an announced chunk size near 2^64 makes the client panic on an addition (`Chunked.OverflowExactly`);
- recorded output with control characters other than LF and CR is not valid JSON (`Escapes.ValidJsonExactly`);
- the terminal filter does not know that a typed Ctrl+U or Ctrl+C empties the shell's line, so over a run its
  buffer and the line agree if and only if in forwarded chunks those keys meet an empty buffer
  (`LineFilter.RunAgreesExactly`); that no refused line is submitted holds all the same (`LineFilter.NoRefusedLine`);
- the statement that changes a PostgreSQL password does not name a user with a double quote (`Escapes.AlterRoleExactly`);
- the token file falls behind memory when a request is dropped at one of its waits (`TokenRotation.DiskEqualsMemory`);
- a rollback in the middle of a deploy may lose the release it names (`Releases.RollbackInDeployExactly`,
  `Releases.InterleavedSafeExactly`);
- the terminal counter is exact unless a reset comes while a handler holds a slot (`Slots.ExactExactly`); with
  such resets any number of terminals gets in (`Slots.ResetsAdmitAll`);
- a schedule with more than four spaces is accepted and misread by the export (`Crontab.ExportExactly`), a job
  with a line feed in schedule, id or label is accepted and not read back (`Crontab.SyncReadsBack`), its lines
  without marker pile up among the administrator's (`Crontab.SyncIdempotentExactly`,
  `CrontabRuns.ForeignKeptExactly`), a read of the crontab that fails loses those (`CrontabRuns.LostExactly`), and
  removing a cron job removes every job whose id starts with the given id (`CrontabRuns.MarkedWith`);
- Laravel's editor overlooks assignments that do not start with `KEY=` (`EnvFiles.StrayForm`), values with a line
  feed, as a title may be, are not read back and may set other keys (`EnvChains.ChainValuesExactly`,
  `EnvPanel.SetThenGetExactly`), and quotes around a value do not survive reading
  (`EnvChains.WrittenValueExactly`), not even CodeIgniter's own around the base URL (`EnvChains.BaseUrlReads`);
- a redirect whose source ends in `return`, or whose target has whitespace, is not listed as it is
  (`NginxRedirects.RuleListedExactly`), and one whose target holds `location = ` can be removed by a request for
  another source (`NginxRedirects.MentionsExactly`);
- a protected path that ends in `location` is listed without that word (`NginxAuth.ListedExactly`), and
  removing undoes adding only for a file that ends with a line feed (`NginxAuth.RemoveUndoesAddExactly`);
- a relay host with an equals sign is shown cut short (`PostfixStatus.RelayShownExactly`), one that contains the
  rate limit's mark is lost at the next rate request and may be taken for a rate (`PostfixStatus.RelayLostExactly`,
  `PostfixMarks.StatusExactly`), and repeating a removal
  takes away one more blank line at the end of `main.cf` (`PostfixRuns.RemovalTwiceExactly`).

In three places the comments say something else than the code; the models follow the code. In
`set_ci_env` a key is said to be followed by a space and an equals sign or by the equals sign alone; the
code accepts any whitespace between them. Above the parser of a rate, hours and days are named; the code
also accepts minutes. Log streams are said to be limited to 10; the check and the increment are separate
operations, so the limit is not part of the model.

## Model

| member | source | states |
|---|---|---|
| Text.SpaceByCode | panel/agent/src/routes/crons.rs:230 | the 25 codes that trimming and splitting at whitespace take for whitespace |
| Text.TrimExactlyAround | panel/agent/src/routes/crons.rs:141 | trimming takes exactly the whitespace around a text |
| Text.LinesReturn | panel/agent/src/routes/crons.rs:50 | a carriage return before a line feed belongs to the line's end, and nowhere else |
| Text.DecByDigit | panel/agent/src/routes/mail.rs:986 | how a number is printed, digit by digit |
| Csv.ParseCsv | panel/agent/src/services/database.rs:361-430 | the loop over `field`, `record`, `records` and `in_quotes` computes the recursive scan followed by the command-tag check |
| Csv.ExecuteQuery | panel/agent/src/services/database.rs:323-342 | the shown rows are a prefix of the parsed rows of at most 1000, cut exactly at 1000 if `truncated`, which is set exactly when rows are missing |
| Csv.ScanCell | panel/agent/src/services/database.rs:367-409 | reading a printed cell, quoted with doubled quotes or bare, adds exactly its text to the field, whatever follows |
| Csv.ScanRecords | panel/agent/src/services/database.rs:367-409 | reading printed records, each ended by LF or CR LF, appends exactly their texts to the records read so far |
| Csv.RoundTrip | panel/agent/src/services/database.rs:361-430 | for any records and any choice of quoting and line ends, parsing the print gives header and rows, or the empty table for a lone command tag |
| Csv.RoundTripExactly | panel/agent/src/services/database.rs:417-430 | the printed table is read back if and only if it is not a single cell that starts like a command tag |
| Csv.LoneCellExactly | panel/agent/src/services/database.rs:417-430 | a result of one cell, quoted or not, is an empty table if the cell starts with one of the nine words, which are listed, and a header else |
| Csv.CommandTagExample | panel/agent/src/services/database.rs:417-430 | the one-column table `INSERTED` without rows is answered as an empty table |
| Csv.RoundTripUnterminated | panel/agent/src/services/database.rs:411-416 | a last record without line end is read back if and only if it is not one empty cell |
| Csv.UnclosedQuote | panel/agent/src/services/database.rs:367-416 | a quote that is never closed takes the rest of the input as one cell, and makes no row if there is nothing behind it |
| Csv.ConsoleShowsPrefix | panel/agent/src/services/database.rs:323-342 | any result that satisfies the contract of `ExecuteQuery` shows the header and the first min(1000, n) printed rows, with `truncated` if and only if n > 1000 |
| Chunked.DecodeChunked | panel/cli/src/client.rs:141-175 | the loop over `pos` and `result` computes the recursive decoding, or the overflow of an addition on `usize` |
| Chunked.HeaderReads | panel/cli/src/client.rs:146-157 | a hexadecimal size followed by CR LF is found, trimmed and parsed to its value, for all hexadecimal strings below 2^64 |
| Chunked.Hex | panel/cli/src/client.rs:152-157 | a sender's shortest way of writing a size, in either case of letters, has that value |
| Chunked.LeadingZero | panel/cli/src/client.rs:152-157 | leading zeros do not change a size |
| Chunked.RoundTrip | panel/cli/src/client.rs:141-175 | every list of non-empty chunks, however its sizes are written, decodes to the concatenation of the data, CR LF in the data and bytes after the last chunk included |
| Chunked.PrefixMonotone | panel/cli/src/client.rs:145-172 | the decoding of a truncated body is a prefix of the decoding of the whole body, and does not overflow if that does not |
| Chunked.NoLonger | panel/cli/src/client.rs:158-172 | the output is never longer than the input |
| Chunked.OverflowExactly | panel/cli/src/client.rs:158-163 | decoding overflows if and only if a header it reaches announces a chunk that would end at 2^64 or beyond |
| Chunked.OverflowExample | panel/cli/src/client.rs:158-163 | sixteen digits F and CR LF overflow |
| Chunked.PaddedHeader | panel/cli/src/client.rs:152-157 | a hexadecimal size below 2^64 is read as its value with spaces and tabs around it and with a plus sign in front |
| Chunked.RefusedHeader | panel/cli/src/client.rs:152-157 | a header that is no hexadecimal number, or one of 2^64 or more, ends the body |
| Chunked.ExtensionExample | panel/cli/src/client.rs:152-157 | so does the header `5;x`, a size with an extension |
| Chunked.DigitByCode | panel/cli/src/client.rs:156-157 | the 22 hexadecimal digits by their codes, with their values, and no other |
| Chunked.SpacesAreTrimmed | panel/cli/src/client.rs:152 | trimming a header takes each of the 25 codes of White_Space, in UTF-8, off its start |
| Chunked.SpacesAreTrimmedAtEnd | panel/cli/src/client.rs:152 | and off its end |
| Chunked.OnlySpacesAreTrimmed | panel/cli/src/client.rs:152 | and whatever is taken off either end is the encoding of such a character |
| Chunked.FirstChunkExactly | panel/cli/src/client.rs:158-172 | a first chunk overflows exactly if it would end at 2^64 or beyond, and one that reaches the end of the input before that is cut off there |
| Ansi.StripAnsiEscapes | panel/agent/src/routes/logs.rs:629-671 | the loop over the peekable iterator computes the recursive stripping |
| Ansi.SkipCsi | panel/agent/src/routes/logs.rs:636-644 | the inner loop stops after the first letter of a control sequence |
| Ansi.SkipOsc | panel/agent/src/routes/logs.rs:645-661 | the inner loop stops after BEL, ESC backslash or a lone ESC |
| Ansi.StripRendered | panel/agent/src/routes/logs.rs:629-671 | of any interleaving of text, control sequences, operating system commands and two-character escapes exactly the text is kept |
| Ansi.ControlSequenceGoes | panel/agent/src/routes/logs.rs:636-644 | ESC and an opening bracket go up to and with the first character of the codes 65 to 90 and 97 to 122, and to the end of the input if there is none |
| Ansi.CommandGoes | panel/agent/src/routes/logs.rs:645-661 | ESC and a closing bracket go up to and with BEL, ESC backslash, or an ESC alone |
| Ansi.OtherwiseStays | panel/agent/src/routes/logs.rs:662-669 | ESC and any other character go, and text without ESC stays |
| Ansi.ClearScreenExample | panel/agent/src/routes/logs.rs:636-644 | what follows the sequence that clears the screen is kept |
| Ansi.StripIsVisibleText | panel/agent/src/routes/logs.rs:629-671 | every input is such an interleaving up to an unfinished sequence at its end, and what is kept is its text |
| Ansi.StripIsClean | panel/agent/src/routes/logs.rs:629-671 | the output has no ESC and is a subsequence of the input |
| Ansi.StripIdempotent | panel/agent/src/routes/logs.rs:629-671 | stripping twice is stripping once |
| Escapes.FourPassesAreOne | panel/agent/src/routes/terminal.rs:438 | the four replacements of the recorder equal one pass over the characters |
| Escapes.EscapeInverts | panel/agent/src/routes/terminal.rs:438 | unescaping gives back the recorded output and stops at the closing quote, for every output |
| Escapes.RecordedOneByOne | panel/agent/src/routes/terminal.rs:438 | the characters 92, 34, 10 and 13 are recorded as backslash and backslash, quote, n and r, every other as itself, and a text character by character |
| Escapes.ValidJsonExactly | panel/agent/src/routes/terminal.rs:438 | a strict JSON reader accepts the string if and only if the output has no control character but LF and CR |
| Escapes.EscapeCharExample | panel/agent/src/routes/terminal.rs:438 | output with an ESC character, as every coloured line has, is not valid JSON |
| Escapes.MysqlPassesAreOne | panel/agent/src/services/database.rs:447-473 | the chains of replacements for both engines equal one pass each |
| Escapes.PasswordReadsBack | panel/agent/src/services/database.rs:447-473 | lexing the literal of any password by either engine's rules yields the password and ends at the closing quote |
| Escapes.AlterUserReadsBack | panel/agent/src/services/database.rs:447-462 | reading the MariaDB statement gives the user and the password that were put in, for all strings |
| Escapes.StatementsWritten | panel/agent/src/services/database.rs:447-473 | for user and password without quotes and backslashes both statements are given word for word |
| Escapes.AlterRoleExactly | panel/agent/src/services/database.rs:464-473 | reading the PostgreSQL statement by its rules for quoted identifiers gives the user and the password that were put in if and only if the user is not empty and has no double quote |
| LineFilter.Terminal.constructor | panel/agent/src/routes/terminal.rs:367 | a session starts with an empty buffer and nothing forwarded |
| LineFilter.Terminal.HandleInput | panel/agent/src/routes/terminal.rs:453-530 | the loop over the characters of a JSON input leaves exactly the buffer and the forwarded text of the step function, on site and server terminals |
| LineFilter.Terminal.HandleRaw | panel/agent/src/routes/terminal.rs:533-571 | the same for plain text messages, which the server terminal forwards without touching the buffer |
| LineFilter.OneKeyScanned | panel/agent/src/routes/terminal.rs:467-511 | what each character does to the buffer, by its code: 10 and 13 submit or block, 8 and 127 take off the last character, other control characters do nothing, all others are added |
| LineFilter.TextScanned | panel/agent/src/routes/terminal.rs:508-510 | typed text without control characters is added to the buffer as it is |
| LineFilter.EraseUndoes | panel/agent/src/routes/terminal.rs:506-507 | a character and either erase key leave the buffer as it was, and an erase key leaves an empty buffer empty |
| LineFilter.ChunkHandled | panel/agent/src/routes/terminal.rs:453-571 | a chunk whose scan is blocked is replaced by the codes 21 and 3 and empties the buffer; any other is forwarded, whichever way it is sent |
| LineFilter.ErasedCommand | panel/agent/src/routes/terminal.rs:467-511 | a refused command typed with a character too many and the delete key is refused |
| LineFilter.OneKeyTyped | panel/agent/src/routes/terminal.rs:467-511 | what each character does to the shell's line, by its code: as in the buffer, except that 3 and 21 discard it and nothing is blocked |
| LineFilter.EraseUndoesTyping | panel/agent/src/routes/terminal.rs:506-507 | a character and either erase key leave the shell's line as it was |
| LineFilter.FilteredInStep | panel/agent/src/routes/terminal.rs:453-571 | handling one chunk keeps the buffer equal to the line pending in the shell and every submitted line accepted; only a forwarded chunk must meet an empty buffer with its Ctrl+U and Ctrl+C |
| LineFilter.SiteTerminalInStep | panel/agent/src/routes/terminal.rs:453-571 | the same over every run of messages whose forwarded chunks do so |
| LineFilter.BlocklistIsHereditary | panel/agent/src/services/command_filter.rs:88-106 | whatever the blocklist, a command that the filter accepts has no part that it refuses |
| LineFilter.NoRefusedLine | panel/agent/src/routes/terminal.rs:453-571 | over every run of a site terminal, whatever is typed, however it is cut and wherever chunks are blocked, no refused line is submitted to the shell, because the pending line always is an ending of the buffer |
| LineFilter.FreshTerminalRefusesAll | panel/agent/src/routes/terminal.rs:453-571 | so for every session from its start, with no condition on the keys: every line submitted is blank or, trimmed, accepted by the filter |
| LineFilter.FreshTerminalInStep | panel/agent/src/routes/terminal.rs:453-571 | a session from its start agrees throughout if and only if its forwarded chunks do so, then all of this holds, and without Ctrl+U and Ctrl+C they always do |
| LineFilter.AgreementExactly | panel/agent/src/routes/terminal.rs:504-511 | on a chunk that passes, buffer and line of the session agree after every key if and only if its kill characters meet an empty buffer |
| LineFilter.RunAgreesExactly | panel/agent/src/routes/terminal.rs:453-571 | over every run, blocked chunks included, buffer and line agree after every key of every forwarded chunk if and only if in those chunks Ctrl+U and Ctrl+C meet an empty buffer |
| LineFilter.DisagreementExample | panel/agent/src/routes/terminal.rs:504-511 | a session in which `a` and Ctrl+U are typed has the buffer `a` and an empty line |
| LineFilter.CutExactly | panel/agent/src/routes/terminal.rs:453-571 | cutting a chunk in two changes the session if and only if both halves are non-empty and the whole is blocked |
| LineFilter.ServerTerminalForwardsAll | panel/agent/src/routes/terminal.rs:453-571 | the server terminal forwards everything typed, unchanged |
| Slots.RunBalanced | panel/agent/src/routes/terminal.rs:56-107 | in every interleaving of acquires, releases and resets holders + saturated releases = counter + what resets took off, and the admitted stay within 20 and that difference |
| Slots.CounterIsExact | panel/agent/src/routes/terminal.rs:56-107 | in every interleaving without resets the counter equals the handlers holding a slot, no release saturates, and at most 20 are admitted |
| Slots.CounterWithResets | panel/agent/src/routes/security.rs:185-187 | with resets the counter never exceeds the holders; it falls short of them, and admission exceeds 20, by at most what resets took off and releases have not made good |
| Slots.ExactExactly | panel/agent/src/routes/security.rs:185-187 | over every run from an exact state the counter equals the handlers holding a slot in every state if and only if every reset comes when no handler holds one |
| Slots.IdleResetsKeepLimit | panel/agent/src/routes/security.rs:185-187 | with resets only at such moments at most 20 handlers are admitted at any time |
| Slots.ResetsAdmitAll | panel/agent/src/routes/security.rs:185-187 | for every n there is a run with resets in which n handlers are admitted at once |
| Slots.AdmittedExactly | panel/agent/src/routes/terminal.rs:56-60 | a handler is admitted if and only if fewer than 20 handlers hold a slot, those being turned away included |
| Slots.StreamCounterIsExact | panel/agent/src/routes/logs.rs:205-237 | in every interleaving the stream counter equals the live streams, so its wrapping decrement never wraps |
| TokenRotation.Agent.constructor | panel/agent/src/routes/mod.rs:158-241 | memory and disk start with the same token, and there is no previous one |
| TokenRotation.Agent.RotateToken | panel/agent/src/routes/mod.rs:204-241 | a rotation with given file outcomes leaves the state of its steps run without interruption, and reports success if and only if the file was written and renamed |
| TokenRotation.Agent.Authenticate | panel/agent/src/routes/mod.rs:158-199 | a request passes if and only if it is the health check or bears the current token, or the previous one less than 60000 milliseconds after its rotation |
| TokenRotation.UninterruptedRotation | panel/agent/src/routes/mod.rs:204-241 | what a whole rotation does to current and previous token and to the disk, for each outcome |
| TokenRotation.RunConsistent | panel/agent/src/routes/mod.rs:204-241 | every step of a rotation, and its request being dropped where it waits for a lock, keeps the invariant that ties memory, previous token, used tokens and the rotator's position |
| TokenRotation.DiskEqualsMemory | panel/agent/src/routes/mod.rs:204-241 | after any mix of successful, failed and dropped rotations, with none in flight, disk equals memory if and only if no request was dropped between its rename and its update in memory since the last installed token |
| TokenRotation.NotCancelled | panel/agent/src/routes/mod.rs:204-241 | in a run in which no request is dropped that is never so |
| TokenRotation.DroppedExample | panel/agent/src/routes/mod.rs:219-237 | a request dropped after its rename leaves a token on disk that no request is accepted with |
| TokenRotation.AcceptedWasCurrent | panel/agent/src/routes/mod.rs:173-199 | a token accepted at time u was the current token at some moment in (u - 60 s, u] |
| TokenRotation.CurrentUntilInstall | panel/agent/src/routes/mod.rs:204-241 | in every run a token that was current still is, is the previous token, or is gone, according to which steps have happened |
| TokenRotation.AcceptedExactly | panel/agent/src/routes/mod.rs:173-199 | a request bearing the token current at its arrival is accepted if and only if it was not replaced before the first check, or no later rotation has overwritten it and the grace has not lapsed |
| TokenRotation.AcceptedForOneMinute | panel/agent/src/routes/mod.rs:173-199 | a token that one rotation has replaced, with nothing stashed after it, is accepted if and only if the second check comes less than 60000 milliseconds after that rotation stashed it |
| Supervisor.Supervise | panel/backend/src/main.rs:259-293 | the loop over `delay` computes the sequence of sleeps |
| Supervisor.SleepIsCappedPower | panel/backend/src/main.rs:259-293 | each sleep is min(2^k, 300), where k counts the restarts since the last reset |
| Supervisor.BackoffWrittenOut | panel/backend/src/main.rs:259-293 | a task that never runs for 60 seconds is restarted after 1, 2, 4, 8, 16, 32, 64, 128, 256 and then always 300 seconds, and after 60 seconds or more after 1 again |
| Supervisor.Amortised | panel/backend/src/main.rs:259-293 | a potential on `delay` pays for every restart quicker than 91/5 seconds |
| Supervisor.RestartBound | panel/backend/src/main.rs:259-293 | in every window of every run n restarts in T seconds satisfy 91 n <= 5 T + 300 |
| Supervisor.BoundIsTight | panel/backend/src/main.rs:259-293 | five immediate failures take 31 seconds, which meets the bound with equality |
| Supervisor.RateIsOptimal | panel/backend/src/main.rs:259-293 | for every n some run makes 5 n restarts in exactly 91 n seconds |
| Releases.SiteDirectory.constructor | panel/agent/src/services/deploy.rs:235-260 | a site starts without releases and without a current one |
| Releases.SiteDirectory.AtomicDeploy | panel/agent/src/services/deploy.rs:235-510 | a deploy with a given outcome goes through exactly the states of its trace, reports success if and only if it got through the swap, and then keeps as many releases as were requested, within 2 and 20, and 5 by default |
| Releases.SiteDirectory.Prune | panel/agent/src/services/deploy.rs:484-500 | the pruning loop goes through exactly the states that remove all but the last `keep` of the sorted listing |
| Releases.SiteDirectory.ActivateRelease | panel/agent/src/services/deploy.rs:564-595 | a rollback swaps the link if and only if the id is valid, the directory exists and the swap succeeds |
| Releases.ActivationExactly | panel/agent/src/services/deploy.rs:564-595 | a rollback moves the link exactly to an existing release named by one to twenty digits |
| Releases.LessIsNumeric | panel/agent/src/services/deploy.rs:257 | for digit strings of one length lexicographic order is numeric order |
| Releases.SortAscending | panel/agent/src/services/deploy.rs:484-500 | the sorted listing is strictly ascending |
| Releases.KeptIsNearest | panel/agent/src/routes/deploy.rs:178 | the number of kept releases is the one from 2 to 20 nearest to the request, and 5 without a request |
| Releases.DeploySafe | panel/agent/src/services/deploy.rs:256-510 | in every state of a deploy, whatever its outcome, `current` names an existing release |
| Releases.RunSafe | panel/agent/src/services/deploy.rs:256-510 | the same in every state of every run of deploys with increasing ids and rollbacks, in the middle of pruning included |
| Releases.DeployKeepsGreatest | panel/agent/src/services/deploy.rs:484-500 | after a successful deploy exactly min(n + 1, keep) releases remain, and every kept id is greater than every removed one |
| Releases.DeployKeepsRequested | panel/agent/src/services/deploy.rs:484-500 | after a successful deploy of a new release exactly the greatest of the n + 1 releases remain: min(n + 1, k) for a request k from 2 to 20, min(n + 1, 5) without one, and 2 or 20 at most for requests below or above |
| Releases.DeployEnds | panel/agent/src/services/deploy.rs:256-510 | only a successful deploy moves the link, to its own release; a failed one leaves the releases as they were, or with its own beside them, according to how it failed |
| Releases.RollbackDuringPrune | panel/agent/src/services/deploy.rs:564-595 | if a rollback slips in during pruning, `current` survives if and only if its release is not among those still to be removed |
| Releases.ChangesTrace | panel/agent/src/services/deploy.rs:256-510 | the changes of the disk listed for a deploy take it through exactly its states |
| Releases.InterleavedSafeExactly | panel/agent/src/services/deploy.rs:564-595 | with renames of rollbacks between any two changes of any deploys, `current` names an existing release in every state if and only if each release linked is there and is not removed before the link is set again |
| Releases.RollbackInDeployExactly | panel/agent/src/services/deploy.rs:564-595 | a rollback whose check passes after j changes of a deploy and whose rename comes after k keeps every state safe unless the rename comes after the swap and pruning removes its release, or its release is the new one of a failing deploy that cleans up |
| Releases.ListingIsExact | panel/agent/src/services/deploy.rs:513-554 | the list is strictly descending, complete, and marks exactly one release active when `current` is set |
| Crontab.SyncCrons | panel/agent/src/routes/crons.rs:47-87 | the loop over `lines` computes the new crontab, or the first error |
| Crontab.LineWritten | panel/agent/src/routes/crons.rs:67-74 | the line of a job, word for word |
| Crontab.ScheduleExactly | panel/agent/src/routes/crons.rs:229-238 | a schedule is valid if and only if it has five words and every character but whitespace is a digit, an asterisk, a slash, a minus sign or a comma |
| Crontab.FiveFieldsAreValid | panel/agent/src/routes/crons.rs:229-238 | any five such words with a space between each two are a valid schedule |
| Crontab.ScheduleExamples | panel/agent/src/routes/crons.rs:229-238 | `*/5 * * * *` is valid and `@daily` is not |
| Crontab.SafeExactly | panel/agent/src/services/command_filter.rs:70-84 | a command is safe if and only if it has 1 to 4096 bytes, none of the codes 0, 10 and 13, and is not blocked |
| Crontab.AsciiLength | panel/agent/src/services/command_filter.rs:71 | the bytes of a text of ASCII are its characters, and no text has fewer |
| Crontab.Utf8ByCode | panel/agent/src/services/command_filter.rs:71 | the bytes of every character by its code, and of a text as the sum over its characters |
| Crontab.RefusedByFirst | panel/agent/src/routes/crons.rs:52-66 | the first refused job decides the error: invalid schedule, empty command or disallowed command, in this order |
| Crontab.ListExactly | panel/agent/src/routes/crons.rs:134-157 | for every valid schedule, the job list shows a job's line as that job if and only if these conditions but the four spaces hold |
| Crontab.ExportExactly | panel/agent/src/routes/iac.rs:281-311 | for every valid schedule, the export reads a job's own line back as that job if and only if the schedule has four spaces, schedule and command have no whitespace around them, the command no marker, the id no space and the label no whitespace around it |
| Crontab.ReadBack | panel/agent/src/routes/crons.rs:134-157 | if the managed lines are those of jobs on one line each, the export returns exactly the jobs, in order, if and only if all meet its conditions, likewise the job list; jobs with a line feed are never returned |
| Crontab.SyncReadsBack | panel/agent/src/routes/crons.rs:47-87 | after every accepted sync the export returns the synced jobs if and only if all meet its conditions and are on one line each, likewise the job list; what counts as the administrator's lines is what did before, in order, and the lines of the jobs without marker |
| Crontab.SyncIdempotentExactly | panel/agent/src/routes/crons.rs:47-87 | syncing the same jobs again writes the same crontab if and only if every line of the jobs holds the marker |
| Crontab.StraysPileUp | panel/agent/src/routes/crons.rs:47-87 | every further sync of jobs adds their lines without marker once more to the administrator's |
| Crontab.BrokenLabelExample | panel/agent/src/routes/crons.rs:66-77 | a job labelled with two lines, which a sync accepts, adds the second one n times in n syncs |
| Crontab.WideScheduleExample | panel/agent/src/routes/iac.rs:281-311 | a schedule with two spaces in a row, which a sync accepts, is not exported as it is |
| Crontab.SyncRefusedExactly | panel/agent/src/routes/crons.rs:52-82 | a sync is refused if and only if one of its jobs has an invalid schedule or a disallowed command |
| CrontabRuns.MarkedWith | panel/agent/src/routes/crons.rs:163-177 | the line of a job whose command holds no marker, and whose id and label hold one only before what they begin with, matches a removal if and only if the requested text starts id and label; for a text without spaces, if it is a prefix of the id |
| CrontabRuns.MeantExactly | panel/agent/src/routes/crons.rs:163-177 | removals match a job's line only when they are meant for it if and only if it is such a job |
| CrontabRuns.StraysExactly | panel/agent/src/routes/crons.rs:50-77 | a job whose text holds the marker once has no line without it if and only if it is on one line |
| CrontabRuns.RemoveRepresents | panel/agent/src/routes/crons.rs:163-177 | a removal of any text takes away exactly the marked lines that hold it after the marker, a job when its last line goes, and none of the administrator's lines |
| CrontabRuns.RemovalWritten | panel/agent/src/routes/crons.rs:163-177 | a crontab of lines without `# axiapanel:` and the id stays byte for byte, and one with such a line in front loses exactly that |
| CrontabRuns.RemoveExactlyOne | panel/agent/src/routes/crons.rs:163-177 | with distinct ids of one length removing a job's id leaves a crontab from which each reader returns the other jobs if and only if they meet its conditions |
| CrontabRuns.PrefixIdExample | panel/agent/src/routes/crons.rs:166-173 | from a crontab with the jobs 1 and 10 removing the id 1 leaves none |
| CrontabRuns.SyncRepresents | panel/agent/src/routes/crons.rs:47-87 | after an accepted sync any crontab represents the synced jobs, each by its lines with the marker, which is where runs may start |
| CrontabRuns.NoJobs | panel/agent/src/routes/crons.rs:49-54 | so may runs from every crontab without managed lines, which represents no jobs |
| CrontabRuns.RunRefinesList | panel/agent/src/routes/crons.rs:47-177 | over every run of syncs and removals, with reads of the crontab that fail, each reader returns the list that the same run makes if and only if its jobs meet the reader's conditions and are on one line each, and the administrator's lines are those that the same run makes |
| CrontabRuns.ForeignKeptExactly | panel/agent/src/routes/crons.rs:47-177 | while no operation writes after a failed read, the administrator's lines stay in front and in order, and nothing is added to them if and only if every line of every synced job holds the marker |
| CrontabRuns.LostExactly | panel/agent/src/routes/crons.rs:180-196 | if every line of the synced jobs holds the marker, a run keeps the administrator's lines if and only if no operation of it writes after a failed read |
| EnvFiles.ReplaceEnvLine | panel/agent/src/services/cms.rs:421-492 | the loop over `lines` and `found` of both installers' editors computes the edited text |
| EnvFiles.AssignmentWritten | panel/agent/src/services/cms.rs:421-492 | the assignment that each editor writes, character by character, with quotes for a Laravel value with a space only |
| EnvFiles.LaravelReplaces | panel/agent/src/services/cms.rs:431-434 | Laravel's editor replaces exactly the lines that start with `KEY=` or `# KEY=` |
| EnvFiles.CodeIgniterReplaces | panel/agent/src/services/cms.rs:459-481 | CodeIgniter's replaces assignments and those commented out with `#` or `# `, with whatever whitespace around the line and before the equals sign |
| EnvFiles.LongerKeyStays | panel/agent/src/services/cms.rs:421-492 | neither editor takes an assignment to a longer key for the key's |
| EnvFiles.ReplacedInPlace | panel/agent/src/services/cms.rs:421-492 | the one matching line of a file gives way to the new assignment where it stands, and every other byte stays |
| EnvFiles.AppendedLast | panel/agent/src/services/cms.rs:441-449 | without a matching line the new assignment is appended as a last line |
| EnvFiles.EditedLines | panel/agent/src/services/cms.rs:421-492 | the lines of the result are the edited lines, with those of the new assignment in place of every matching one, but for a last blank line if the file did not end with a line feed; with a value on one line the file ends as it did |
| EnvFiles.SetIdempotentExactly | panel/agent/src/services/cms.rs:421-492 | setting a key twice to a value is setting it once if and only if the value has no line feed |
| EnvFiles.MatchedLine | panel/agent/src/services/cms.rs:421-492 | a line that an editor takes for a key's assigns that key, or is a comment that holds an assignment to it and is read as nothing |
| EnvFiles.OtherKeysKeptExactly | panel/agent/src/services/cms.rs:421-492 | setting one key leaves what another reads as it was, even where names share prefixes, if and only if no line of the new assignment gives that one a value; none does if the value has no line feed |
| EnvFiles.StrayForm | panel/agent/src/services/cms.rs:431-437 | the only assignments an editor overlooks are, for Laravel, those not written `KEY=` from the first column |
| EnvFiles.OwnKeyReads | panel/agent/src/services/cms.rs:421-492 | after setting a key to any value what its first line reads as is among the values read, and all values read are v if and only if the overlooked lines and those of the new assignment read so |
| EnvChains.ChainReadsBack | panel/agent/src/services/cms.rs:143-149 | after a chain of edits with distinct keys all values read for a key are v if and only if the overlooked lines of the original and the key's own lines read so, no earlier setting adds an overlooked line and no later one any line that reads otherwise |
| EnvChains.ChainValuesExactly | panel/agent/src/services/cms.rs:143-149 | each key is read with the value that was set and no other if and only if that value has no line feed and survives its quoting, the overlooked lines read so, and the other settings do not disturb; they do not if they have no line feed |
| EnvChains.LaravelReadsBack | panel/agent/src/services/cms.rs:143-149 | the same for the seven settings of a Laravel site, whatever title and values; a template written `KEY=` throughout has no overlooked lines |
| EnvChains.LaravelKeyByKey | panel/agent/src/services/cms.rs:143-149 | the same key by key: which argument is read under each of the seven names |
| EnvChains.TitleExample | panel/agent/src/services/cms.rs:143-149 | with a title whose second line is ` DB_PORT=1` the port of the site is not read as it was set, whatever the template |
| EnvChains.CodeIgniterReadsBack | panel/agent/src/services/cms.rs:399-406 | for the eight settings of a CodeIgniter site and every template: each key is read with the value that was set and no other if and only if that has no line feed, outer quotes or outer whitespace and the values set after it give the key no other |
| EnvChains.CodeIgniterKeyByKey | panel/agent/src/services/cms.rs:399-406 | the same key by key: which argument, or `production` and `MySQLi`, is read under each of the eight names |
| EnvChains.BaseUrlReads | panel/agent/src/services/cms.rs:406 | the base URL, set in single quotes, is never read as it was set; on one line it is read without them, whatever the other values |
| EnvChains.LaravelValid | panel/agent/src/services/cms.rs:143-149 | the seven keys of the Laravel chain are valid and distinct |
| EnvChains.CodeIgniterValid | panel/agent/src/services/cms.rs:399-406 | the eight keys of the CodeIgniter chain are valid and distinct |
| EnvChains.WrittenValueExactly | panel/agent/src/services/cms.rs:421-492 | a written value is read as itself if and only if it has no outer quotes, and no outer whitespace unless it was quoted |
| EnvPanel.SetThenGet | panel/agent/src/routes/nginx.rs:1438-1474 | whatever variables are saved in the panel, they are listed in order, each as its own text is read alone; with valid keys and values on one line, each with its key and with what its quoted value reads as |
| EnvPanel.VariableWritten | panel/agent/src/routes/nginx.rs:1443-1456 | the text that the panel saves for one variable, character by character |
| EnvPanel.SetThenGetExactly | panel/agent/src/routes/nginx.rs:1438-1474 | variables of any kind without carriage returns are listed unchanged if and only if each key is not empty, has no outer whitespace, no leading number sign, no equals sign and no line feed, and each value no line feed, no outer quotes, and no outer whitespace unless it gets quoted |
| NginxRedirects.RuleListedExactly | panel/agent/src/routes/nginx.rs:791-810 | a rule's line is listed as that rule if and only if its target has no whitespace and its source does not end in `return` |
| NginxRedirects.SpacedTargetExample | panel/agent/src/routes/nginx.rs:791-810 | a rule with the target `/ b` is accepted and not listed as it is |
| NginxRedirects.HiddenSourceExample | panel/agent/src/routes/nginx.rs:791-810 | a rule with the source `/return` is accepted and not listed |
| NginxRedirects.NamedExactly | panel/agent/src/routes/nginx.rs:833-838 | a removal matches a rule's line, for every rule that can be added, if and only if the requested text and a space start what follows `location = `, or stand after that word in the target |
| NginxRedirects.AskedExactly | panel/agent/src/routes/nginx.rs:833-838 | for a requested source without spaces that is the case exactly for the rules with that source |
| NginxRedirects.MentionsExactly | panel/agent/src/routes/nginx.rs:833-838 | removals take out only rules whose source they ask for if and only if the rule's target does not hold `location = ` |
| NginxRedirects.RemovalExactly | panel/agent/src/routes/nginx.rs:816-838 | a removal of any text leaves byte for byte the rules it does not match, and a blank line if none is left |
| NginxRedirects.AdditionExactly | panel/agent/src/routes/nginx.rs:717-766 | an accepted rule is appended; a refused one, or one that nginx rejects, leaves the file as it was |
| NginxRedirects.RuleWritten | panel/agent/src/routes/nginx.rs:727-732 | the line that an accepted rule appends, word for word |
| NginxRedirects.AcceptedExactly | panel/agent/src/routes/nginx.rs:702-722 | a rule is accepted if and only if its kind is 301 or 302, its source starts with a slash and has no whitespace, semicolon or brace, and its target is not empty and has no line end, semicolon or brace |
| NginxRedirects.ListedExactly | panel/agent/src/routes/nginx.rs:784-813 | the list page returns exactly the rules of a file, in order, if and only if no target has whitespace and no source ends in `return`; with whitespace-free targets exactly the latter rules are missing |
| NginxRedirects.HandWritten | panel/agent/src/routes/nginx.rs:784-813 | a rule by another hand, without braces, is listed if it gives a kind and a target, and a line with a kind alone is not |
| NginxRedirects.RunRefinesRules | panel/agent/src/routes/nginx.rs:699-838 | over every run of additions, rejected additions and removals the file is byte for byte the list that the same run makes, and the list page shows that list if and only if its rules can be listed |
| NginxRedirects.NewSiteRefinesRules | panel/agent/src/routes/nginx.rs:699-838 | the same from the missing file of a new site |
| NginxAuth.RemoveProtection | panel/agent/src/routes/nginx.rs:1018-1042 | the loop over `cleaned`, `skip` and `brace_count` computes the kept lines |
| NginxAuth.HeaderStarts | panel/agent/src/routes/nginx.rs:1024-1027 | the header of a path's block matches a requested path, whatever string it is, if and only if they are equal |
| NginxAuth.KeepBlock | panel/agent/src/routes/nginx.rs:1023-1040 | a block goes as a whole if its path is requested and stays as a whole if not |
| NginxAuth.RemovalExactly | panel/agent/src/routes/nginx.rs:1018-1042 | removing a path leaves byte for byte the blocks of the other paths |
| NginxAuth.RemoveUndoesAddExactly | panel/agent/src/routes/nginx.rs:914-927 | for any file that does not hold the path yet, removing after adding restores it if and only if it is empty or ends with a line feed |
| NginxAuth.UnterminatedExample | panel/agent/src/routes/nginx.rs:914-927 | after the unterminated line `# admin` a protection that is added is not undone by its removal |
| NginxAuth.AdditionExactly | panel/agent/src/routes/nginx.rs:909-927 | protecting a path appends its block if the path is valid and not yet protected, and changes nothing otherwise |
| NginxAuth.BlockWritten | panel/agent/src/routes/nginx.rs:914-917 | the five lines of a protected path, word for word |
| NginxAuth.EmptyPathIsRoot | panel/agent/src/routes/nginx.rs:909 | protecting the empty path protects `/` |
| NginxAuth.ProtectedExactly | panel/agent/src/routes/nginx.rs:909-927 | a path is accepted if and only if it starts with a slash and has no whitespace, semicolon or brace, and then protected unless its block is there |
| NginxAuth.ListedExactly | panel/agent/src/routes/nginx.rs:975-995 | the protected paths are listed, in order, if and only if none ends in `location` |
| NginxAuth.HiddenEndExample | panel/agent/src/routes/nginx.rs:975-995 | the path `/location` can be protected and is not listed as it is |
| NginxAuth.RunRefinesPaths | panel/agent/src/routes/nginx.rs:869-1042 | over every run of additions and removals the file is byte for byte the blocks of the list of paths, without repetition, and the list page shows that list, each path without a `location` at its end |
| PostfixSettings.RateIsPlain | panel/agent/src/routes/mail.rs:1125-1136 | an accepted rate is not empty and consists of digits, a plus sign, a slash and small letters |
| Postfix.EditedLines | panel/agent/src/routes/mail.rs:981-991 | the lines of an edited file: what the filter keeps and the new block, with the blank line that joining may add or drop |
| Postfix.EditedEntries | panel/agent/src/routes/mail.rs:981-991 | blank lines aside, an edit drops the feature's lines and appends the new ones |
| PostfixSettings.DroppedWritten | panel/agent/src/routes/mail.rs:981-983 | the lines that each of the three features drops, by their beginnings and marks |
| PostfixSettings.RelayWritten | panel/agent/src/routes/mail.rs:985-988 | the seven lines that configuring a relay appends, word for word |
| PostfixSettings.RelayAcceptedExactly | panel/agent/src/routes/mail.rs:959-967 | a relay is accepted if and only if its host is not empty and has no NUL, line feed or carriage return, user name and password have no NUL or line feed, and the port has 16 bits |
| PostfixSettings.RateLines | panel/agent/src/routes/mail.rs:1142 | the three lines that a rate appends, word for word, with a limit of recipients of at most 50 |
| PostfixSettings.TlsWritten | panel/agent/src/routes/mail.rs:1321-1344 | the two lines that enforcing TLS appends, for the levels may, encrypt and none and no others |
| PostfixSettings.RateParses | panel/agent/src/routes/mail.rs:1125-1134 | every count below 2^32 before one of the three periods is read as it was meant, with the delay of the period divided by the count |
| PostfixSettings.RateWritten | panel/agent/src/routes/mail.rs:1125-1134 | every count of 32 bits per minute, hour or day is read as it was meant, with 60, 3600 or 86400 seconds divided by the count |
| PostfixSettings.CountExactly | panel/agent/src/routes/mail.rs:1126 | a printed number, with a plus sign in front or without, is read as that number if it has 32 bits and refused else |
| PostfixSettings.CountPadded | panel/agent/src/routes/mail.rs:1126 | zeros in front of a number do not change it |
| PostfixSettings.CountRefused | panel/agent/src/routes/mail.rs:1126 | a count without digits, or with a character that is none, is refused |
| PostfixSettings.RateAcceptedExactly | panel/agent/src/routes/mail.rs:1121-1134 | a rate of one slash is accepted if and only if a count of at least 1 stands before it and `minute`, `hour` or `day` behind it; one without a slash never is |
| PostfixSettings.SecondSlash | panel/agent/src/routes/mail.rs:1121-1125 | a rate with more than one slash is refused |
| PostfixSettings.DelayIsExact | panel/agent/src/routes/mail.rs:1134 | the delay written for a rate is the longest whole number of seconds that lets the count through in the period that the rate names |
| PostfixSettings.AddedProper | panel/agent/src/routes/mail.rs:985-988 | every line that a request appends is one that its own filter drops again |
| PostfixRuns.ForeignLinesKept | panel/agent/src/routes/mail.rs:959-1344 | over every run of relay, rate-limit and TLS requests the non-blank lines that no feature owns keep content and order |
| PostfixRuns.SetterTwice | panel/agent/src/routes/mail.rs:959-1344 | each setter applied twice writes byte for byte what it writes once |
| PostfixRuns.RemovalTwiceExactly | panel/agent/src/routes/mail.rs:1013-1020 | a removal applied twice is one removal if and only if no blank line was left at the end after other lines |
| PostfixRuns.WrittenOnce | panel/agent/src/routes/mail.rs:985-988 | each setting just written stands in the file exactly once under its name, with the value written |
| PostfixMarks.ShownInsert | panel/agent/src/routes/mail.rs:1000-1010 | what a relay line adds to the report of the other lines: the relay, and a rate if no other line is the rate limit's note and the host could be taken for it |
| PostfixMarks.StatusTracked | panel/agent/src/routes/mail.rs:1154-1160 | after every run of requests, whatever the relay hosts, the status pages report what a state machine says in which a rate request drops a relay whose host holds the rate limit's mark |
| PostfixMarks.StatusExactly | panel/agent/src/routes/mail.rs:1154-1160 | over every run the pages report after each request what the requests so far add up to if and only if no accepted rate request finds such a host configured, and no host with the mark and a colon is configured while no rate is set |
| PostfixMarks.StatusFromNothingExactly | panel/agent/src/routes/mail.rs:1154-1160 | the same from an empty file, on which nothing is configured |
| PostfixMarks.LostRelayExample | panel/agent/src/routes/mail.rs:1138-1142 | configuring the relay host `mx # AxiaPanel rate limit` and then any rate makes the status pages wrong |
| PostfixStatus.StatusRefines | panel/agent/src/routes/mail.rs:1154-1160 | for the runs whose hosts do not hold the mark the pages report what the requests add up to; removing the relay also clears the outbound TLS level |
| PostfixStatus.RelayShownExactly | panel/agent/src/routes/mail.rs:1000-1010 | the configured relay is shown up to its first equals sign, so as written if and only if the host has none |
| PostfixStatus.RelayLostExactly | panel/agent/src/routes/mail.rs:1138-1142 | the relay's line is lost at the next rate request if and only if the host contains the rate limit's mark |
| PostfixMarks.RelayLostExample | panel/agent/src/routes/mail.rs:1138-1142 | the relay host `mx # AxiaPanel rate limit` is accepted and lost at the next rate request |
| SiteScan.MergeSites | panel/agent/src/routes/iac.rs:251-264 | the merging of neighbours in the sorted list computes the recursive merge |
| SiteScan.SortEntries | panel/agent/src/routes/iac.rs:252 | the stable sort changes for no domain which site is first and whether one has SSL |
| SiteScan.MergeExactly | panel/agent/src/routes/iac.rs:251-264 | the exported sites are strictly ascending by domain and are, for each scanned domain, its first site, with SSL if any of its sites has it |

## Left out

- Docker, systemctl, apt, certbot, git, tar and openssl calls, HTTP routing, SQL queries, WebSockets, the frontend: their results are parameters.
- Hashing, signed tokens and TLS are library calls; bearer tokens are opaque fresh values.
- `command_filter.rs`: the blocklists are parameters, in `LineFilter` and in `Crontab`; lowering a text is modelled character by character, so without the final form of the Greek sigma, which no blocklist holds.
- `parse_tsv` and the split of a response into header and body: they add only easy members.
- The htpasswd file, the include lines added to the site configuration, `split_host_port`, the sasl_passwd file and Dovecot's configuration are not modelled.
- Texts with carriage returns: the theorems about line files assume there are none, because `lines` drops one before a line feed; `Csv` and `Chunked` have no such assumption.
- Integer widths: `brace_count` is unbounded, where the code has 32 bits, and counters of terminal handlers and streams assume fewer of them than their types can count.
- Chunked.RoundTrip: chunk extensions (section 7.1.1 of RFC 9112) are not part of it, because the code does not read them; bytes in a header that are not UTF-8 are kept as they are.
- Escapes.ValidJsonExactly: the escape with `u` of RFC 8259 is not read, because the recorder never writes it.
- Escapes.AlterRoleExactly: PostgreSQL's cut of long identifiers is not modelled.
- LineFilter.SiteTerminalInStep: the shell's line editor is Enter, erase, Ctrl+U, Ctrl+C and printable characters; history, word erase, completion and cursor keys are not modelled, nor are failed writes to the terminal.
- Slots.StreamCounterIsExact: the limit of 10 streams is not strict and not stated.
- TokenRotation.DiskEqualsMemory: one rotation at a time, as for concurrent rotations the code does not keep it.
- Supervisor.RestartBound: sleeps take exactly their time, and a shutdown ends the run.
- Releases.RunSafe: deploys in one second share an id and are not covered; shared directories, the public link and directories that are not releases are not modelled; rollbacks in the middle of a deploy are the subject of `InterleavedSafeExactly`.
- CrontabRuns.RunRefinesList: jobs hold no carriage return; a crontab whose managed lines come from elsewhere is covered from its first accepted sync on; a write that fails changes nothing and is no step.
- EnvPanel.SetThenGet: the panel's way of saving the raw text is not modelled, as it writes it unchanged.
- PostfixMarks.StatusExactly: the file starts without the panel's marks inside other lines.
- PostfixStatus.StatusRefines: for hosts with the rate limit's mark see `PostfixMarks.StatusTracked`.
- SiteScan.MergeExactly: how domain, root and runtime are read from a block is not modelled; they are one opaque field.
