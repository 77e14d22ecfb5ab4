# Process fleet controller (ZombieProcessesTest, primary program)

This project is a Dafny model of the primary console program of ZombieProcessesTest. That program starts child processes, keeps them in a registry keyed by process id, and stops them one at a time, in batches, or all at once on exit. The operating-system process is abstract: a `ChildProcess` object with a three-state lifecycle (`Running`, `KillRequested`, `Exited`) and a count of the kill requests it has received.

Modules follow the structure of the program:

- `Text`, `Int32Text`: the string operations the commands rely on. These are `Contains`, `Split` on a separator with empty entries removed, `Trim` of a character set, and `int.TryParse`: surrounding white space, trailing NUL characters, an optional sign, decimal digits and the Int32 range, plus the decimal rendering.
- `Commands`: the routing of an input line in `Main`, and how a stop line is taken apart. Without `=>` the line stops the last entry and the wait flag comes from the whole line. With `=>`, piece 0 gives the wait flag and the remaining pieces are pid tokens, taken in order, each trimmed and parsed.
- `Platform`, `Launch`: the `IsWindows` classification over the `PlatformID` values (the seven of .NET Framework and Mono, and `Other`, which .NET 5 and later add), and the start information `CreateAndStartProcess` builds. The child is started directly on Windows and through `mono` elsewhere, where the unquoted `Arguments` line is split into words at spaces and tabs.
- `Registry`: the `ConcurrentDictionary` as the sequence of its entries in enumeration order: lookup, `Add` (after which the table may enumerate its entries in any order, since a resize rehashes them all), `Remove`, and how a stop command picks its target.
- `Processes`: the `ChildProcess` class and `StopSelectedProcess`.
- `Controller`: the class `FleetController`, which owns the registry. Its methods are `AddProcess`, `StopProcess`, the stop-line handlers, `ListProcesses`, `Exit`, `Step` (one turn of the command loop), `Serve` (the loop up to the line that ends it) and `Run` (`Main` over a finite sequence of input lines).

The class invariant `Valid` is `Consistent` plus one more clause:
- `Consistent`: the keys are distinct, and every entry's key is its process's id;
- every registered process is running.

From `Consistent` it follows that distinct entries hold distinct processes (`Controller.DistinctProcesses`).

`AddProcess`, `StopProcess`, the stop-line handlers, `Step` and `Serve` keep `Valid`. `Exit` does not, and is not meant to: it requires only `Consistent`, keeps that, and leaves every registered process exited. So `Run` keeps `Valid` except when it ends on `exit`. Each state-changing method states its new registry as a function of the old one (`Remove`, `RemoveAll`, `Add`), and each process's new state as a function of its old one (`StopEffect`, `ShutdownEffect`). The lemmas in `Registry`, `Processes` and `Commands` prove the properties of those functions.

Inputs the program reads from its environment are parameters:
- the platform id;
- the base directory;
- the lines read from the console (`None` is the `null` of end of input);
- what each `Process.Start` returns: a pid, a process name and the order the dictionary enumerates in once the new key is added, or a refusal.

Two behaviours of the code worth knowing:
- The default stop target is the last entry the dictionary enumerates (`MyProcesses.Last()`), not the most recently added child.
- A stop-line token that is not an integer raises an exception that ends the program. It is not skipped the way an unknown id is.

## Model

| member | source | states |
|---|---|---|
| Text.OccursInTail | TestProcessPrimary/Program.cs:76 | an occurrence of the separator at a later position is an occurrence in the tail of the text |
| Text.IndexOf | TestProcessPrimary/Program.cs:76 | the result is the first position where the separator occurs, and there is none exactly when the text does not contain it |
| Text.Split | TestProcessPrimary/Program.cs:92 | splitting gives at least one piece; no piece contains the separator; there is more than one piece exactly when the text contains it; joining the pieces with the separator gives back the text |
| Text.RemoveEmpty | TestProcessPrimary/Program.cs:92 | the kept pieces are exactly the non-empty pieces; a non-empty first piece stays first |
| Text.RemoveEmptyConcat | TestProcessPrimary/Program.cs:92 | removing empty pieces from a concatenation is removing them from each part and concatenating, so order and multiplicity are kept |
| Text.RemoveEmptySingle | TestProcessPrimary/Program.cs:92 | a single piece is dropped exactly when it is empty |
| Text.RemoveEmptyKeepsNonEmpty | TestProcessPrimary/Program.cs:92 | pieces that are all non-empty are kept as they are |
| Text.LeadingIn | TestProcessPrimary/Program.cs:106 | the count of leading characters in the trimmed set is maximal: all of them are in the set, and the next is not |
| Text.TrailingIn | TestProcessPrimary/Program.cs:106 | the same for the trailing characters |
| Text.Repeat | TestProcessPrimary/Program.cs:106 | a run of n copies of one character |
| Text.TrimStartRepeat | TestProcessPrimary/Program.cs:106 | trimming the start removes exactly a run of trimmed characters before a text that does not start with one |
| Text.TrimEndRepeat | TestProcessPrimary/Program.cs:106 | trimming the end removes exactly a run of trimmed characters after a text that does not end with one |
| Text.TrimStartKeeps | TestProcessPrimary/Program.cs:106 | a character outside the set is kept by trimming the start, shifted by the count of leading characters removed |
| Text.TrimEndKeeps | TestProcessPrimary/Program.cs:106 | a character outside the set is kept by trimming the end, at its position |
| Text.TrimKeeps | TestProcessPrimary/Program.cs:106 | a character outside the set survives trimming both ends |
| Text.TrimUntouched | TestProcessPrimary/Program.cs:106 | a text whose ends are outside the set is unchanged by trimming |
| Int32Text.DigitValue | TestProcessPrimary/Program.cs:107 | a digit's value is below ten |
| Int32Text.DigitChar | TestProcessPrimary/Program.cs:107 | the digit character of a value below ten is a digit with that value |
| Int32Text.NatToDecimal | TestProcessPrimary/Program.cs:107 | the decimal rendering of a natural number is a non-empty digit string whose value is that number |
| Int32Text.ParseInt32 | TestProcessPrimary/Program.cs:107 | every parsed value lies in the Int32 range |
| Int32Text.ParseSignificant | TestProcessPrimary/Program.cs:107 | the sign, digits and range check alone give values in the Int32 range |
| Int32Text.ParseRender | TestProcessPrimary/Program.cs:107 | parsing the decimal rendering of any Int32 gives that Int32 back |
| Int32Text.ParseIgnoresTrailingNuls | TestProcessPrimary/Program.cs:107 | NUL characters appended to a token that does not end in one do not change what it parses to |
| Int32Text.ParseRejectsNonDigit | TestProcessPrimary/Program.cs:107-110 | a character that is neither a digit nor a leading sign, inside the token once white space and trailing NULs are set aside, makes it fail to parse |
| Int32Text.ParseRejectsForeign | TestProcessPrimary/Program.cs:107-110 | a character that is not a digit, sign, white space or NUL anywhere in the token makes it fail to parse |
| Int32Text.ParseRejectsNoDigits | TestProcessPrimary/Program.cs:107-110 | a token that is empty, or a bare sign, once white space and trailing NULs are set aside, does not parse |
| Int32Text.SignificantUntouched | TestProcessPrimary/Program.cs:107 | a token that starts with a digit or sign and ends with a digit is read as it stands |
| Int32Text.ParseSplit | TestProcessPrimary/Program.cs:107 | a token read as a sign and digits parses to the signed value when it is in range, and fails otherwise |
| Int32Text.ParseBare | TestProcessPrimary/Program.cs:107 | any unsigned digit string parses to its value exactly when that value is at most the Int32 maximum, and fails otherwise |
| Int32Text.ParsePlus | TestProcessPrimary/Program.cs:107 | `+` before any digit string gives the same result as the digits alone |
| Int32Text.ParseMinus | TestProcessPrimary/Program.cs:107 | `-` before any digit string gives the negated value exactly when the value is at most the magnitude of the Int32 minimum, and fails otherwise |
| Commands.RouteBlank | TestProcessPrimary/Program.cs:23-25 | an input is ignored exactly when it is null or white space |
| Commands.RouteExact | TestProcessPrimary/Program.cs:27-37 | `start`, `list` and `exit` are recognised exactly when the line equals the command word |
| Commands.RouteStop | TestProcessPrimary/Program.cs:30-31 | a line goes to stop handling, with the whole line, exactly when it starts with `stop` |
| Commands.RouteIsIfChain | TestProcessPrimary/Program.cs:27-37 | of the four separate tests at most one succeeds, so running them in sequence does what the routing does |
| Commands.PidResults | TestProcessPrimary/Program.cs:96-98 | there is one parse result per pid token |
| Commands.PidResultsAt | TestProcessPrimary/Program.cs:96-98 | result k is the parse of token k |
| Commands.StopWithoutDelimiter | TestProcessPrimary/Program.cs:76-83 | a stop line without `=>` stops the last entry, with wait exactly when `-wait` occurs in the line |
| Commands.StopLineHasInfoPiece | TestProcessPrimary/Program.cs:87-93 | every line that starts with `stop` has an information piece, so routing never reaches the missing-piece failure |
| Commands.DelimiterAfterHead | TestProcessPrimary/Program.cs:92 | when the head has no `=>`, the first `=>` of head + `=>` + rest is the one right after the head |
| Commands.WaitScopedToFirstPiece | TestProcessPrimary/Program.cs:92-98 | for head + `=>` + rest, the wait flag is decided by the head alone, and the pid tokens are the non-empty pieces of rest in order |
| Commands.PidRoundTrip | TestProcessPrimary/Program.cs:102-113 | the decimal rendering of any Int32, padded with spaces on either side, parses to that Int32 |
| Commands.TrimSpaces | TestProcessPrimary/Program.cs:106 | trimming spaces removes exactly the padding around a text whose ends are not spaces |
| Commands.BadPidIsError | TestProcessPrimary/Program.cs:106-110 | a token is rejected exactly when its space-trimmed text does not parse, and the rejection names the token |
| Commands.BadPidOfForeign | TestProcessPrimary/Program.cs:106-110 | a token holding any character that is not a digit, sign, white space or NUL is rejected with a fault naming it |
| Commands.PidOfRender | TestProcessPrimary/Program.cs:102-113 | the rendering of any Int32 parses to that Int32 |
| Commands.AllOkBeforeFailure | TestProcessPrimary/Program.cs:96-99 | when every token parses, all the values are collected in order and there is no failure |
| Commands.OkAfterPrefix | TestProcessPrimary/Program.cs:96-99 | one more good token after a successful prefix adds its value at the end |
| Commands.FailureEndsParse | TestProcessPrimary/Program.cs:96-99 | a bad token after a successful prefix ends the parse with that token's fault, ignoring what follows |
| Commands.PidsBeforeFailureSpec | TestProcessPrimary/Program.cs:96-99 | the collected values are the leading successes; there is no failure exactly when every result succeeded; otherwise the failure is that of the first bad result |
| Commands.ParsePidsSpec | TestProcessPrimary/Program.cs:96-113 | the pids are the parses of the leading tokens; a failure names the first token that does not parse |
| Commands.ParsePidsAllOk | TestProcessPrimary/Program.cs:96-99 | tokens that all parse give all their values, in order |
| Commands.ParsePidsFailAt | TestProcessPrimary/Program.cs:96-99 | tokens that parse up to a bad one give the values before it and its fault |
| Commands.FirstFailure | TestProcessPrimary/Program.cs:96-99 | results that succeed up to a failure give the values before it and that failure |
| Commands.ParsePidsRendered | TestProcessPrimary/Program.cs:96-113 | the renderings of a list of Int32 values parse back to that list with no failure |
| Commands.RenderAll | TestProcessPrimary/Program.cs:96-98 | the rendering of each value, position by position |
| Platform.CodeInjective | TestProcessPrimary/Utils/PlatformUtils.cs:11 | distinct platform ids have distinct codes |
| Platform.IsWindowsByCode | TestProcessPrimary/Utils/PlatformUtils.cs:13-16 | the classification is exactly "one of the four Windows families", a total function of the id alone |
| Platform.WindowsFamilies | TestProcessPrimary/Utils/PlatformUtils.cs:13-16 | Win32NT, Win32Windows, Win32S and WinCE are Windows |
| Platform.OtherFamilies | TestProcessPrimary/Utils/PlatformUtils.cs:13-16 | Unix, MacOSX, Xbox and Other are not Windows |
| Launch.CreateStartInfo | TestProcessPrimary/Program.cs:184-199 | the start information hides the window, does not use the shell, redirects both output streams, shows no error dialog, has an empty verb and uses the base directory as its working directory |
| Launch.PlanByPlatform | TestProcessPrimary/Program.cs:186-211 | on Windows the file name is the combined path and there are no arguments; elsewhere the file name is `mono` and the argument is the combined path |
| Launch.WordLength | TestProcessPrimary/Program.cs:209-210 | the first word of a text ends at its first space or tab |
| Launch.CommandLineArguments | TestProcessPrimary/Program.cs:209-210 | the arguments of a command line are non-empty and contain no space or tab |
| Launch.SingleArgument | TestProcessPrimary/Program.cs:209-210 | a non-empty text without spaces or tabs is a command line of exactly one argument, itself |
| Launch.LaunchRunsChild | TestProcessPrimary/Program.cs:201-211 | on Windows the program that runs is the child at the combined path; elsewhere it is when the path is one plain word (no space, tab or quote) |
| Launch.SeparatedPathMissesChild | TestProcessPrimary/Program.cs:186-211 | off Windows, a combined path with a space or tab anywhere in it is not what `mono` runs |
| Registry.Find | TestProcessPrimary/Program.cs:135 | lookup fails exactly when the key is absent, and a found value is stored under that key |
| Registry.FindAt | TestProcessPrimary/Program.cs:135 | with distinct keys, looking up an entry's key gives that entry's value |
| Registry.FindMember | TestProcessPrimary/Program.cs:135 | with distinct keys, lookup gives v exactly when (k, v) is an entry |
| Registry.HasKeyMember | TestProcessPrimary/Program.cs:135 | a key is present exactly when some entry carries it |
| Registry.RemoveMembers | TestProcessPrimary/Program.cs:149 | removal keeps exactly the entries with other keys |
| Registry.MemberOfRemove | TestProcessPrimary/Program.cs:149 | an entry left after removal was there before and has another key |
| Registry.RemoveUnique | TestProcessPrimary/Program.cs:149 | removal keeps the keys distinct |
| Registry.RemoveAbsent | TestProcessPrimary/Program.cs:149 | removing an absent key changes nothing |
| Registry.RemovePresentLength | TestProcessPrimary/Program.cs:149 | removing a present key removes exactly one entry |
| Registry.RemoveSpec | TestProcessPrimary/Program.cs:149 | after removal the key is gone, every other key finds what it found before, and the keys stay distinct |
| Registry.RemoveAllSpec | TestProcessPrimary/Program.cs:96-99 | removing a list of keys leaves each listed key absent and every other key unchanged |
| Registry.RemoveAllMembers | TestProcessPrimary/Program.cs:96-99 | removing a list of keys keeps exactly the entries whose key is not listed |
| Registry.MemberOfRemoveAll | TestProcessPrimary/Program.cs:96-99 | an entry left after removing a list of keys was there before and its key is not listed |
| Registry.RemoveAllSnoc | TestProcessPrimary/Program.cs:96-99 | removing one more key is one more `Remove` |
| Registry.Arrange | TestProcessPrimary/Program.cs:50 | an enumeration order holds the same entries, as many times each, as the table |
| Registry.ArrangeStep | TestProcessPrimary/Program.cs:50 | an order code starting with an index in range puts that entry first |
| Registry.MultisetWithout | TestProcessPrimary/Program.cs:50 | taking out one position takes out exactly one occurrence of its entry |
| Registry.PickFirst | TestProcessPrimary/Program.cs:50 | the first entry of a reordering sits at some position of the original, and the rest is a reordering of what remains |
| Registry.IndexOfPermuted | TestProcessPrimary/Program.cs:50 | an entry of a reordering has a position in the original |
| Registry.RestPermuted | TestProcessPrimary/Program.cs:50 | taking the same entry out of two reorderings of each other leaves reorderings of each other |
| Registry.MultisetTail | TestProcessPrimary/Program.cs:50 | dropping the first entry takes one occurrence of it out of the multiset |
| Registry.ArrangeReachesAll | TestProcessPrimary/Program.cs:50 | every reordering of the entries is the enumeration order for some order code |
| Registry.UniqueKeysSingle | TestProcessPrimary/Program.cs:50 | with distinct keys, no entry occurs twice |
| Registry.TwiceAt | TestProcessPrimary/Program.cs:50 | an entry at two positions occurs at least twice |
| Registry.PermutedRegistry | TestProcessPrimary/Program.cs:50 | reordering keeps the keys distinct and every lookup unchanged |
| Registry.PermutedHasKey | TestProcessPrimary/Program.cs:50 | reordering keeps the set of keys |
| Registry.AppendUnique | TestProcessPrimary/Program.cs:50 | a new key at the end keeps the keys distinct |
| Registry.AddSpec | TestProcessPrimary/Program.cs:50 | adding a new key, in whatever order the table then enumerates, keeps the keys distinct, makes the key find its value, leaves every other key unchanged, and holds exactly the old entries and the new one |
| Registry.MemberOfAdd | TestProcessPrimary/Program.cs:50 | after adding, an entry is an old one or the new one |
| Registry.ResolveLast | TestProcessPrimary/Program.cs:142-146 | without a pid, a non-empty registry targets its last enumerated entry, which is registered under its key |
| Registry.ResolvePid | TestProcessPrimary/Program.cs:122-140 | with a pid, the three outcomes: no entries exactly when the registry is empty; missing exactly when the registry has entries but not the pid; a target exactly when the pid is registered |
| Registry.StopTwiceMisses | TestProcessPrimary/Program.cs:131-149 | once a pid has been removed, stopping it again does not find a target |
| Processes.ChildProcess.Start | TestProcessPrimary/Program.cs:214 | a started child has the given id, name and start information, is running and has not been killed |
| Processes.ChildProcess.Kill | TestProcessPrimary/Program.cs:61 | a kill request moves a process that has not exited to kill-requested and counts the request |
| Processes.ChildProcess.WaitForExit | TestProcessPrimary/Program.cs:66 | waiting for a killed process leaves it exited, with no further kill |
| Processes.StopSelectedProcess | TestProcessPrimary/Program.cs:53-70 | the process's new state is the stop effect of its old state |
| Processes.StopExitedIsNoOp | TestProcessPrimary/Program.cs:58-59 | stopping an exited process changes nothing and issues no kill |
| Processes.StopKillsOnce | TestProcessPrimary/Program.cs:61 | stopping a process that has not exited issues exactly one kill |
| Processes.StopWaitSemantics | TestProcessPrimary/Program.cs:63-67 | with wait the process is exited afterwards; without wait a process that had not exited is only kill-requested |
| Processes.StopWithWaitIdempotent | TestProcessPrimary/Program.cs:53-70 | after a stop with wait, any further stop changes nothing |
| Processes.ShutdownIsStopWithWait | TestProcessPrimary/Program.cs:171-179 | the shutdown of one process is a stop with wait: it ends exited, and an exited process gets no kill |
| Controller.ProcsMembership | TestProcessPrimary/Program.cs:50 | in a registry keyed by process id, a process is registered exactly when looking up its id finds it |
| Controller.FoundHasId | TestProcessPrimary/Program.cs:135 | a process found under a key is registered and has that key as its id |
| Controller.DistinctProcesses | TestProcessPrimary/Program.cs:50 | distinct entries hold distinct processes |
| Controller.RemoveConsistent | TestProcessPrimary/Program.cs:149 | removing a key keeps the registry keyed by id and unregisters exactly the process with that id |
| Controller.RemoveAllConsistent | TestProcessPrimary/Program.cs:96-99 | removing a list of keys keeps the registry keyed by id and unregisters exactly the processes whose ids are listed |
| Controller.ExtendedConsistent | TestProcessPrimary/Program.cs:50 | a registry with distinct keys holding the entries of a consistent one plus a process under its own id is consistent and holds one more process |
| Controller.AddConsistent | TestProcessPrimary/Program.cs:50 | adding a process under its id, in any enumeration order, keeps the registry keyed by id and registers exactly that process in addition |
| Controller.TurnDeterministic | TestProcessPrimary/Program.cs:21-37 | a line's exception is decided by the registry, the line and the spawn, so a line that raises one cannot be handled without one; every line but a successful start also decides the registry it leaves |
| Controller.FleetController.constructor | TestProcessPrimary/Program.cs:15 | the controller starts with an empty registry |
| Controller.FleetController.AddProcess | TestProcessPrimary/Program.cs:44-51 | a refused start, or an id already registered, fails and leaves the registry unchanged; otherwise the new running child, started with the planned start information, is added once under its id, and the table then enumerates in the order the spawn gives; the registered processes grow by exactly that child |
| Controller.FleetController.StopProcess | TestProcessPrimary/Program.cs:120-150 | on an empty registry or an unknown pid nothing changes; otherwise, when a pid is given, the target is its entry, and when none is given, the last enumerated entry; the target is stopped, exactly its key is removed, and no other process changes |
| Controller.FleetController.StopEach | TestProcessPrimary/Program.cs:96-99 | the pid tokens are stopped in order up to the first bad token, whose fault is returned; exactly the parsed pids are removed, and exactly the processes with those ids receive the stop effect |
| Controller.FleetController.StopPiece | TestProcessPrimary/Program.cs:98 | one token: a bad token ends the parse with its fault and changes nothing; a good one is stopped and counted |
| Controller.FleetController.StopListed | TestProcessPrimary/Program.cs:98 | stopping one parsed pid removes it and applies the stop effect to its process only |
| Controller.FleetController.ParseStopProcess | TestProcessPrimary/Program.cs:72-100 | a stop line removes exactly the keys it selects and stops exactly those processes, with the wait flag it carries; the only fault it can return is that of a bad pid token |
| Controller.FleetController.ListProcesses | TestProcessPrimary/Program.cs:152-164 | the empty-registry message exactly when nothing is registered; otherwise one row (key, name) per entry in enumeration order, with distinct keys |
| Controller.FleetController.Exit | TestProcessPrimary/Program.cs:166-180 | on any registry keyed by id, whatever state its processes are in, every registered process ends exited, with the shutdown effect of its old state: one that had exited is left alone and one that had not is killed once; the registry is not modified |
| Controller.FleetController.Step | TestProcessPrimary/Program.cs:21-34 | the registry and the exception of the turn are those `Turn` gives for the line and the spawn; every process registered afterwards is either one registered before, in its old state, or a fresh, running, never-killed child; a line other than `stop` changes no process; a `stop` line applies the stop effect to exactly the processes whose keys it selects; a successful `start` registers a fresh, running, never-killed child with the spawn's pid and name |
| Controller.FleetController.Serve | TestProcessPrimary/Program.cs:19-38 | the trace starts at the old registry and each line before the end takes it one `Turn` further without an exception; on `exit` or at the end of input the registry is the trace's last; a crash is the `Turn` of its line with that exception from the trace's last registry; the registry stays valid throughout; unless a line crashed, every process registered at the end is either one registered at the start, in its old state, or a fresh, running, never-killed child |
| Controller.FleetController.Run | TestProcessPrimary/Program.cs:17-42 | the trace of `Serve`; on `exit` the registry is the trace's last and stays keyed by id, and every registered process has exited: one registered when `Run` began is in the shutdown state of the state it had then (killed once, since it was running), and one a line started is in the shutdown state of a fresh start; a crash is the `Turn` of its line with that exception, with no `Exit` |

## Left out

- Console output: the message texts are not modelled. Where the kind of message matters (nothing to stop, no such process, stopped, the listing), it is part of the returned outcome.
- Real operating-system processes: `Process.Start`, `Kill`, `WaitForExit` and `HasExited` are transitions of the abstract `ChildProcess`. What `Process.Start` returns (pid, name, refusal) is an input. A child that exits by itself is not modelled.
- Concurrency: the `Parallel.For` of the stop list and the `AsParallel().ForAll` of `Exit` run sequentially, and the thread safety of `ConcurrentDictionary` is not modelled.
- Controller.FleetController.StopEach: it stops the tokens in order and stops at the first token that does not parse. With `Parallel.For` the iterations run in no fixed order, and once one throws no new ones start. So tokens after a bad one may still be stopped, and tokens before it may never run, before the `AggregateException` ends the program. The model captures neither.
- Controller.FleetController.Exit: the parallel kills happen one after another in the model, so no interleaving is captured.
- Controller.FleetController.AddProcess: the enumeration order of `ConcurrentDictionary` is an input, not computed from hashing and resizing. Each start receives an order code, and `Registry.Add` enumerates the old entries and the new one in the order it picks (`Registry.ArrangeReachesAll`: every order is possible). So nothing is claimed about "most recently added", nor about the old entries keeping their relative order.
- Controller.FleetController.Step: the effect of a successful start (in `Turn`) is stated as "the old entries and the new one, in some enumeration order" (equal multisets). Which order the spawn's code picks is stated by `AddProcess`, which `Step` calls.
- Controller.FleetController.Serve: the trace records the registry after each line, and `Turn` gives the registry and the exception of each line. The states of the processes a stop line removes are stated line by line by `Step`, not collected along the trace: the trace does not say what state a child stopped on an earlier line is in at the end.
- Controller.FleetController.StopProcess: it requires the class invariant, under which every registered child is running, so the already-exited branch of `StopSelectedProcess` is not reached from the controller; `Processes.StopSelectedProcess` and `Processes.StopExitedIsNoOp` state that branch on their own. `Exit`, in contrast, accepts registered children in any state.
- Controller.FleetController.Run: the input is finite. Once `Console.ReadLine` returns `null` at end of input, the source's loop spins forever; the model ends with `InputExhausted` when the lines run out. An unhandled exception (refused start, duplicate id, bad pid token) ends the run as `Crash`, with the fault and no call to `Exit`.
- Controller.FleetController.AddProcess: when the id is already registered, `Add` throws after the child has started. The model creates that child but leaves it unregistered, and nothing further is said about it.
- Commands.Route: `StartsWith("stop")` uses the current culture in .NET; the model uses an ordinal prefix test. `Equals` and `Contains` are ordinal in both.
- Int32Text.ParseInt32: culture-specific details of `int.TryParse` (thousands separators, other digit sets, a culture's sign symbols) are not modelled. It accepts trailing NUL characters, then surrounding white space, an optional `+` or `-`, and decimal digits within the Int32 range.
- Launch.LaunchRunsChild: `Arguments` is the unquoted path, which a command line splits at white space. The model splits at spaces and tabs. It proves that a plain path (no space, tab or quote) runs the child, and that a path with a space or tab does not (`Launch.SeparatedPathMissesChild`). Quoting, backslash escapes and other white-space characters of the .NET argument rules are not modelled.
- Launch.CombinePath: `Path.Combine` is plain concatenation, because the application base directory already ends with a separator; the full .NET path rules (rooted names, separator insertion) are not modelled.
- `Environment.OSVersion.Platform` and `AppDomain.CurrentDomain.BaseDirectory` are inputs (the platform id and the base directory).
- The null check in `StopSelectedProcess` (Program.cs lines 55-56) is unreachable, because every registered process exists; it is not modelled.
- The `AggregateException` wrapping of faults raised inside `Parallel.For` is collapsed into the fault itself.
- TestProcessChild/Program.cs is not part of this model: it sleeps and prints in a loop and has no state the controller observes.
