# AutoJudge submission bridge, modelled in Dafny

AutoJudge is a command-line program that hands a source file to the Themis judge. The judge has no API, only a watched inbox directory (the "OSD", online submission directory). The program copies the file into that inbox under a name that carries the user and the task. It then busy-polls for the result log that the judge writes to `Logs\<name>.log` and prints it.

This project models the logic of `AutoJudge.NETCore/Program.cs`:

- `Text.dfy`: the .NET string services the program uses. These are `ToLower` / `ToUpper` (ASCII letters) and the decimal form of an `int`. It also has a character search (`IndexOf`), which the program does not use; only the reference decoder in `Naming.dfy` does.
- `Paths.dfy`: the parts of `System.IO.Path` it uses, with Windows conventions. These are `GetFileName`, `GetExtension`, `GetFileNameWithoutExtension`, `IsPathRooted` and `Combine`.
- `Naming.dfy`: the naming in `CopyFileAndGetLogPath`. The destination name is `<rnd>[<user>][<TASK>]<ext>` and the predicted log path is `<osd>\Logs\<name>.log`. It also has a reference decoder that reads a name back. The decoder is this model's reading of the name format, used to show that the name carries its fields recoverably; the judge's own parser is not part of this model.
- `Arguments.dfy`: the `(flag, value)` pair loop of `Main` as a method with loop invariants. A specification function (`Fold`) gives the loop's meaning, and a reference description (`Summary`: the last occurrence of each flag wins) is proved equal to it.
- `Waiter.dfy`: the busy-poll wait loop as a method over a trace of polls. It has both the timeout test as written and the evidently intended one.
- `AutoJudge.dfy`: `Main`'s control flow (`Run`). It is proved equal to the outcome function `Decide`, and the lemmas about `Decide` state the ordering of the checks, when the copy happens and what it targets, and the timeout behaviour.

The judge's process, the settings file, the filesystem, the random value and the clock are inputs to `Run` (an `Environment`). The process-wide statics the source mutates (`osd_runtime`, `username_runtime`, `INVALID_ARGUMENTS_FLAG`) become inputs and locals.

Two points about the code itself:

- `Initialize` (banner, first-run setup, directory creation) runs before the judge-process check, so that check does not come before every filesystem effect.
- The wait loop's timeout never fires (see Findings).

## Model

| member | source | states |
|---|---|---|
| `AutoJudge.Run` | AutoJudge.NETCore/Program.cs:30-117 | `Main`'s control flow gives exactly the outcome `Decide` specifies, for either timeout test |
| `AutoJudge.ResetOnlyForExactFlag` | AutoJudge.NETCore/Program.cs:32-38 | the reset path is taken if and only if the arguments are exactly `["-reset"]`; the match is case-sensitive (`["-RESET"]` is not a reset) |
| `AutoJudge.ProcessGuardFirst` | AutoJudge.NETCore/Program.cs:45-51 | apart from the reset, the run ends with "process not found" if and only if Themis is not running, and then nothing is copied |
| `AutoJudge.MalformedArgumentsRejected` | AutoJudge.NETCore/Program.cs:32-57 | an odd or empty argument list other than `["-reset"]` ends with invalid arguments, or with "process not found" when Themis is absent |
| `AutoJudge.CopyOnlyForValidRequest` | AutoJudge.NETCore/Program.cs:59-93 | the copy is attempted if and only if the count is even and non-zero, Themis runs, setup did not fail, a `-src` pair exists and the chosen inbox exists; the copy target is built from the last `-src`/`-osd`/`-user` values or the settings |
| `AutoJudge.Decide` | AutoJudge.NETCore/Program.cs:30-117 | the outcome of `Main`: reset, then the process guard, then the invalid-argument flag, then the pair loop and `Submit`; its behaviour is stated by the lemmas below |
| `AutoJudge.Submit` | AutoJudge.NETCore/Program.cs:87-116 | the rest of `Main` after the pair loop: the inbox check, the copy under `SubmissionTarget` and the wait; characterised by `SubmitCopies` |
| `AutoJudge.SettingsApplied` | AutoJudge.NETCore/Program.cs:175-210 | the environments `Initialize` leaves behind: unless first-run setup failed, the configured inbox exists |
| `AutoJudge.ConfiguredInboxAccepted` | AutoJudge.NETCore/Program.cs:59-93 | in such an environment, a well-formed request with a `-src` pair and no `-osd` pair is valid and reaches the copy; it never ends as invalid arguments |
| `AutoJudge.SubmitCopies` | AutoJudge.NETCore/Program.cs:87-93 | after the loop, the copy happens if and only if a file was given and the inbox directory exists; every later outcome carries that target's paths |
| `AutoJudge.AsWrittenRunNeverTimesOut` | AutoJudge.NETCore/Program.cs:97-114 | as written, no run ends in the timeout branch; with a copied file and no result log, the run is still waiting |
| `AutoJudge.IntendedRunIsBounded` | AutoJudge.NETCore/Program.cs:95-114 | with the total-elapsed test, a run whose copy succeeded ends with the result or a timeout by the first poll past the limit |
| `Arguments.ParseArguments` | AutoJudge.NETCore/Program.cs:59-85 | the pair loop reads only in-bounds pairs of an even-length list; afterwards `hasFile` holds if and only if a `-src` pair exists; each field holds its flag's last value (the file path through `GetFullPath`) or the setting |
| `Arguments.Step` | AutoJudge.NETCore/Program.cs:67-84 | one pass of the loop body: the lower-cased flag selects which local the value sets (`-src` through `GetFullPath`, also setting `hasFile`); any other flag changes nothing |
| `Arguments.Fold` | AutoJudge.NETCore/Program.cs:59-85 | the locals after the loop body has run on each pair in order, starting from no file and the settings; proved equal to the last-occurrence summary by `FoldIsSummary` |
| `Arguments.Pairs` | AutoJudge.NETCore/Program.cs:65-68 | the loop visits `(args[2j], args[2j+1])` for every `j`, in order, half as many pairs as arguments |
| `Arguments.LastValue` | AutoJudge.NETCore/Program.cs:70-84 | the last value of a flag exists if and only if some pair has that flag, and no later pair has it |
| `Arguments.FoldIsSummary` | AutoJudge.NETCore/Program.cs:59-85 | running the loop body over the pairs equals the last-occurrence-wins summary: later values overwrite earlier ones, and absent flags keep the defaults |
| `Arguments.FoldAppend` | AutoJudge.NETCore/Program.cs:65-85 | processing two runs of pairs one after the other equals processing them concatenated |
| `Arguments.UnknownFlagIgnored` | AutoJudge.NETCore/Program.cs:82-83 | a pair whose flag is not `-src`, `-osd` or `-user` in any case leaves every parsed field unchanged, wherever it stands |
| `Arguments.FlagMatchIgnoresCase` | AutoJudge.NETCore/Program.cs:70 | a flag matches `-src`, `-osd` or `-user` if and only if it has the same length and each letter in either case |
| `Arguments.MixedCaseFlags` | AutoJudge.NETCore/Program.cs:70-81 | `-SRC`, `-Osd` and `-USER` are accepted; `-reset` is not a pair flag |
| `Naming.DestinationName` | AutoJudge.NETCore/Program.cs:233-238 | `<rnd>[<user>][<TASK>]<ext>`: the decimal random value, the user in brackets, the upper-cased file stem in brackets, then the extension; read back by `DestinationNameRoundTrip` |
| `Naming.LogFileName` | AutoJudge.NETCore/Program.cs:239 | `Logs\<destination name>.log`, relative to the inbox |
| `Naming.SubmissionTarget` | AutoJudge.NETCore/Program.cs:231-246 | the copy destination and the log path, each the inbox combined with its relative part; characterised by `SubmissionTargetPaths` |
| `Naming.DestinationNameRoundTrip` | AutoJudge.NETCore/Program.cs:233-238 | reading the destination name back recovers the random value, the user, the upper-cased file stem and the extension, when user and stem hold no `]` |
| `Naming.SubmissionTargetPaths` | AutoJudge.NETCore/Program.cs:239-242 | the copy goes to the inbox joined with the name; the log path is the inbox's `Logs` directory joined with the name plus `.log`; it always ends in `.log`; for a user name without separators, its file name is the name plus `.log` |
| `Naming.ParseDestinationName` | AutoJudge.NETCore/Program.cs:238 | a name that reads back yields a user and a task without `]` |
| `Text.DecimalString` | AutoJudge.NETCore/Program.cs:238 | the interpolated random value is one or more decimal digits with no leading zero |
| `Text.DecimalRoundTrip` | AutoJudge.NETCore/Program.cs:238 | the decimal form of the random value reads back as that value |
| `Text.Lower` | AutoJudge.NETCore/Program.cs:70 | `ToLower` on ASCII letters, every other character unchanged; characterised by `LowerMatches` |
| `Text.Upper` | AutoJudge.NETCore/Program.cs:235 | `ToUpper` on ASCII letters, every other character unchanged; characterised by `UpperIsUpper` |
| `Text.LowerMatches` | AutoJudge.NETCore/Program.cs:70 | comparing a lower-cased string with a lower-case literal accepts exactly the spellings that differ from it only in letter case |
| `Text.UpperIsUpper` | AutoJudge.NETCore/Program.cs:235 | the upper-cased task keeps its length, holds no lower-case letter, keeps every character that is not a lower-case letter, equals the file stem ignoring case, and upper-casing it again changes nothing |
| `Text.UpperExample` | AutoJudge.NETCore/Program.cs:235 | a stem `sum_2` becomes the task `SUM_2` |
| `Paths.FileName` | AutoJudge.NETCore/Program.cs:235-236 | the file name is the suffix of the path after its last separator, and holds no separator |
| `Paths.IsRooted` | AutoJudge.NETCore/Program.cs:241-242 | `Path.IsPathRooted`: a leading `\` or `/`, or a drive letter followed by `:` |
| `Paths.Combine` | AutoJudge.NETCore/Program.cs:241-242 | `Path.Combine`: the second part alone when the first is empty or the second is rooted, the first alone when the second is empty, otherwise the two joined by one separator (none added when either already has one at the joint) |
| `Paths.Stem` | AutoJudge.NETCore/Program.cs:235 | `Path.GetFileNameWithoutExtension`: the file name up to its last `.`; characterised by `StemAndExtensionRebuildName` |
| `Paths.Extension` | AutoJudge.NETCore/Program.cs:236 | `Path.GetExtension`: from the file name's last `.` to its end, empty without a `.` or when the `.` is last; characterised by `ExtensionShape` |
| `Paths.ExtensionShape` | AutoJudge.NETCore/Program.cs:236 | the extension is empty, or a `.` followed by at least one character and no further `.` |
| `Paths.StemAndExtensionHaveNoSeparator` | AutoJudge.NETCore/Program.cs:235-236 | neither the task stem nor the extension holds a separator |
| `Paths.StemAndExtensionRebuildName` | AutoJudge.NETCore/Program.cs:235-236 | stem plus extension give back the file name, except a trailing `.`, which belongs to neither; a name without `.` is all stem; a name with a `.` before its last character has a non-empty extension (with `ExtensionShape`, it starts at the last `.`) |
| `Paths.CombineRelative` | AutoJudge.NETCore/Program.cs:241-242 | joining the inbox with a relative part keeps that part whole at the end, behind a separator when the inbox is not empty |
| `Waiter.MillisecondsComponent` | AutoJudge.NETCore/Program.cs:101-103 | `TimeSpan.Milliseconds` of any elapsed span lies between -999 and 999, and is non-negative for a non-negative span |
| `Waiter.TruncatedRem` | AutoJudge.NETCore/Program.cs:103 | the C# remainder is smaller than the divisor in size and takes the dividend's sign |
| `Waiter.TruncatedDiv` | AutoJudge.NETCore/Program.cs:103 | C# integer division truncates toward zero: the quotient is never of the opposite sign to the dividend |
| `Waiter.Exceeds` | AutoJudge.NETCore/Program.cs:100-103 | whether an elapsed span counts as a timeout: as written, its millisecond component above 600000; as intended, the whole span above 600000 ms |
| `Waiter.WaitFrom` | AutoJudge.NETCore/Program.cs:97-108 | the wait loop from a given poll on: found at a poll with the log, expired at a poll past the limit, else the next poll; characterised by `WaitFromStopsAtFirst` |
| `Waiter.WaitForResult` | AutoJudge.NETCore/Program.cs:95-108 | the busy-poll loop's outcome is `WaitFrom` of its trace; under the test as written, `hasResult` is never cleared |
| `Waiter.WaitFromStopsAtFirst` | AutoJudge.NETCore/Program.cs:98-108 | the wait stops at the first poll that finds the log (found) or passes the limit (timed out), and is pending when there is no such poll; each in both directions |
| `Waiter.AsWrittenWaitsForResult` | AutoJudge.NETCore/Program.cs:97-108 | as written, the wait never times out; it ends exactly at the first poll that finds the log, and keeps polling for as long as the log is absent |
| `Waiter.IntendedWaitIsBounded` | AutoJudge.NETCore/Program.cs:100-107 | with the total-elapsed test, the wait stops by the first absent-log poll past 600000 ms, and a log that is found was found within the limit |
| `Waiter.SubSecondRuleNeverFires` | AutoJudge.NETCore/Program.cs:103 | the test as written, `duration.Milliseconds > 600000`, is false for every elapsed span, however long |
| `Waiter.ElevenMinutesWithoutResult` | AutoJudge.NETCore/Program.cs:26 | eleven minutes without a log: the intended test times out at once, while the test as written keeps waiting |

## Left out

- Console output is not modelled: the banner, the usage lines, the diagnostics and `AnimateThreeDots` (its un-awaited `Task.Delay` has no effect).
- `PrintResult` is not modelled: reading the log's first line and the rest, the elapsed-time formatting, and its un-awaited delay. It is file reading and text formatting.
- The text of `NoFileTerminate` is not modelled. It is console output, and as written it is never reached.
- Configuration persistence is not modelled: `GetSettings`, `CreateConfigurationFile`, `Reset`, `GetAppDataPath`, the JSON file and the interactive first-run prompts. The loaded settings and whether first-run setup threw are inputs. The reset outcome does not model the deletion of the file.
- Exceptions that end the program are not modelled, apart from a failed `File.Copy`. These are a missing or unreadable settings file, an invalid path given to `Path.GetFullPath`, and an unreadable result log.
- `FoundThemisProcess` (process enumeration) is a boolean input.
- `Directory.CreateDirectory(osd_runtime)` in `GetSettings` is not executed by the model, and its exception is not modelled. `Environment` leaves the existing directories free, so `Decide` is also defined for environments the program cannot reach: setup succeeded but the configured inbox is missing, where a request without `-osd` is turned away. `AutoJudge.SettingsApplied` names the reachable environments, and `AutoJudge.ConfiguredInboxAccepted` states what holds in them. The other lemmas hold for every environment.
- The filesystem is a set of inputs. `Directory.Exists` is a set of existing directories. `File.Exists` is the answer recorded in each poll. `File.Copy` is modelled only as succeeding or failing, and the copied bytes are not modelled. `Path.GetFullPath` is a function input.
- `new Random().Next()` and `DateTime.Now` are inputs: a value in `[0, 2^31 - 1)` and clock readings in ticks.
- The wait loop has no bound as written. It is modelled over a finite trace of observed polls, and `Pending` / `Waiting` stands for a loop that is still running when the trace ends.
- `Text.Lower`, `Text.Upper`: only ASCII letters change case. .NET's `ToLower` / `ToUpper` are culture-sensitive over all of Unicode, so non-ASCII case mappings (and culture-specific ones such as the Turkish dotted i) are not captured.
- `Paths.FileName`: only `\` and `/` end the directory part. A drive-relative root such as `C:file` is not modelled; after `GetFullPath` a separator always follows the root.
- `Naming.DestinationNameRoundTrip` holds only for user names and file stems without `]`. The name format has no escaping, so with a `]` the fields cannot be told apart.
- `Waiter.TruncatedDiv`: its contract states only the quotient's sign, not that it is no larger than the dividend in size. Only the sign is needed for the millisecond range.
- Clock readings are unbounded integers. The 64-bit range of `DateTime` ticks is never reached by real elapsed times.

## Findings

| source | as written | input that shows it | evidently intended | confidence | as-written member | corrected member |
|---|---|---|---|---|---|---|
| AutoJudge.NETCore/Program.cs:103 | `duration.Milliseconds > MAXIMUM_TIMEOUT_MILISECONDS` compares the millisecond component of the elapsed time (-999 to 999) with 600000. It is never true, so the wait never times out and `hasResult` is always true | no result log while the clock reads 11 minutes (6600000000 ticks) after the start: the loop as written keeps polling | compare the whole elapsed time (`TotalMilliseconds`) with 600000 ms, giving up after 10 minutes | high; not executed | `Waiter.AsWrittenWaitsForResult` | `Waiter.IntendedWaitIsBounded` |

`Waiter.SubSecondRuleNeverFires` states that the test as written is false for every elapsed span. `Waiter.ElevenMinutesWithoutResult` exhibits the input above on both tests. `Run` and `Decide` take the timeout test as a parameter. `AutoJudge.AsWrittenRunNeverTimesOut` states the behaviour as written, and `AutoJudge.IntendedRunIsBounded` states the corrected behaviour for the whole run.
