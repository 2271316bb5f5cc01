# A verified model of the Statix agent

The Statix agent connects a node to its control plane. This project models the parts of the agent whose
behaviour spans many calls, many tasks or many machines, and proves what they promise:

* **The log spool** (`RecordIds`, `LogRecords`, `LogSpool`, `SpoolFacts`, `SpoolRuns`, `LogQuery`, `LogPaging`,
  `LogWalks`, `Redact`, `Streams`): an append-only store of JSON lines, rotated by size, pruned by age and read
  page by page with cursors, while writers go on. Two loops that feed it, the marker redaction and the line
  writer, are proved against what they are for; so is the container output streamer, their sibling.
* **The guest command compiler** (`ShellWords`, `GuestCommand`, `GuestNames`, `ResolvConf`, `ResolvGuest`): directory,
  environment and arguments become a script that is quoted, embedded in a larger script and quoted again. The
  scripts are read back with a tokeniser for the fragment they use (sections 2.2.1, 2.2.2 and 2.3 of the Shell
  Command Language, POSIX.1-2017: blanks, single quotes, backslash, operators), and run.
* **The session protocol** (`Protocol`, `Dispatch`, `Connection`, `ConnectionFacts`, `ConnectionReports`,
  `ConnectionAnswers`, `ConnectionProgress`): one connection is a step system with a main loop, a task that writes to
  the socket and tasks that answer log queries. A run is any list of steps, so theorems over runs hold for every
  interleaving.
* **The migration runner** (`Migrations`, `MigrationRuns`): the updater, which may stop anywhere and be run again,
  and whole sequences of updates through releases whose bundles grow.
* **Waiting for a guest** (`Readiness`): the two readiness loops, on an ideal clock.

`Text` holds strings, decimal numbers and their order.

Code that updates state in place is a method or a class here, proved against a function; the theorems are about
that function, over all inputs or all runs. Libraries enter as parameters: the JSON library is a pair of functions
that write a record on one line and read it back, `String::from_utf8_lossy` and the loopback test are arbitrary
functions, clocks are readings, and probes, scripts and sockets are given by what they answer.

Promises that the code keeps only under a condition are stated with that condition, in both directions:

* Following cursors returns every record at every page size if and only if no two records share timestamp and id
  (`CompleteExactlyWhenKeysDistinct`); records that carry ids drawn from the generator, each once, never do
  (`DrawnIdsAreKeys`). A bare-id cursor of an older agent resumes at the same place if and only if no newer record
  has the same id or, for an id that reads as a cursor itself, the place it names lies between its record and the
  next (`LegacyCursor`).
* Whole lines, the size limit, fresh rotation names, conservation of records and pages without repeats hold whatever
  the clocks say. Only ages need a clock that does not go back: nothing of the last seven days is pruned, and a
  record is gone after eight days only if an append never stalls between reading the clock and writing; with a
  stall of `d` the bound is eight days and `2d`, and it is reached (`NothingOlder`, `AgeBoundIsTight`).
* A record id shows the counter before its update, so the first id of a process is number zero (`IdsLagTheClock`).
* A command reaches the guest intact if and only if its first word is a plain operand of the guest's `exec` and it
  sets no variable the guest's shell keeps for itself (`CommandArrivesIntact`). In bash, `-` is an operand, and any
  other word with a leading dash is not; in a plain `sh` that depends on whether it drops `--` and refuses options.
  bash exports a variable it keeps, such as `UID`, with its own value; a plain `sh` gives up. If the directory cannot
  be entered, the command is held back if and only if it has no environment: `&&` guards the first `export` only
  (`FailedCdStopsOnlyWithoutEnv`).
* The derived guest address is usable for the container of every attempt id if and only if the prefix length is at
  most 24, while the parser accepts up to 30 (`UsableForEveryContainerExactly`).
* Over all sequences of updates through growing bundles, completed migrations are a prefix of the newest sorted
  bundle, in order and recorded up to the last, if and only if no bundle holds an id that is another followed by a
  dash and every release adds greater ids only (`InvariantExactly`). The first: `*.sh` lists `0001-a-b.sh` before
  `0001-a.sh`, but `0001-a` is the smaller id and is skipped for good (`WrongWayRound`). Unique four-digit prefixes,
  which the repository asks for, exclude that (`UniqueNumbersMakeNoPair`). They do not exclude the second: a release
  that adds `0001-a` when `0002-b` is out never runs it, and replaces the binary all the same (`LateMigration`).
  That nothing runs again once it or a greater id is recorded holds for any bundles in any order
  (`RecordedNeverRunsAgain`).
* Configured nameservers are read back by the guest if and only if each is one word without `#` that is not a
  loopback address (`ConfiguredRoundTrip`).

`dafny verify dfyconfig.toml` checks the whole project.

## Model

| member | source | states |
|---|---|---|
| RecordIds.Source.Next | src/logs.rs:205-219 | one call prints the counter before the update and leaves the larger of the clock and the next number |
| RecordIds.CountersIncrease | src/logs.rs:211-217 | for any start and any clock readings a later call gets a greater number, until the u64 maximum, where it stays |
| RecordIds.AdvanceIsLeast | src/logs.rs:211-217 | the counter moves no further than it must to pass the number printed and reach the clock |
| RecordIds.FormatOrder | src/logs.rs:218-218 | with 20 and 10 padded digits, string order of ids is numeric order of (counter, process id), and ids are equal only if both are |
| RecordIds.FormatText | src/logs.rs:218-218 | an id is twenty digits that read as the counter, a dash, and ten that read as the process id |
| RecordIds.IdsStrictlyIncrease | src/logs.rs:205-219 | as strings, a later id is greater exactly when the earlier one is below the u64 maximum |
| RecordIds.IdsLagTheClock | src/logs.rs:211-217 | the first id of a process is number zero whatever the clock says; each later one is at least every earlier reading |
| LogRecords.Codec.ParseOfRender | src/logs.rs:181-182 | reading the lines of a file of rendered records gives exactly the records |
| LogRecords.LinesExactly | src/logs.rs:270-270 | any bytes, cut at newlines: every line is read, less one carriage return, and what follows the last newline too |
| LogRecords.Codec.DecodedExactly | src/logs.rs:271-273 | a record is decoded exactly if some line is one; lines that are none are passed over, wherever they stand |
| LogSpool.LogSpool.Prune | src/logs.rs:221-238 | the loop over the directory removes exactly the spool files last written before the cutoff and keeps the rest in order |
| LogSpool.PrunedExactly | src/logs.rs:221-238 | a file goes exactly if its name starts with `events-` and its last write is more than seven days back |
| LogSpool.LogSpool.AppendWithLimit | src/logs.rs:175-198 | the new directory and id counter after prune, size check, rotation, second prune and write |
| SpoolFacts.GrowsOrRotates | src/logs.rs:184-196 | today's file grows by the record while that fits; otherwise it is set aside unchanged under the next id and the record starts a new file |
| SpoolFacts.RotatedNameIsFree | src/logs.rs:187-188 | the name rotation picks is no file's name, so no rotated file is overwritten |
| SpoolFacts.AppendKeepsInvariant | src/logs.rs:175-198 | whatever the clock readings, each file stays whole record lines, within the limit or one record, of one day, under a name that fits; names stay distinct |
| SpoolFacts.AppendConservesRecords | src/logs.rs:175-198 | records after an append and those its prunes deleted are together the records before and the new one, as multisets |
| SpoolFacts.AppendKeepsTime | src/logs.rs:175-198 | on a clock that does not go back, every record stays written within the stall of the reading that chose its file, not after its file's last write, and no file is from the future |
| SpoolFacts.RecentRecordsSurvive | src/logs.rs:221-238 | on a clock that does not go back, an append deletes no record written within seven days of its last prune |
| SpoolFacts.OldRecordsAreGone | src/logs.rs:200-203 | after an append no surviving record is older than eight days and twice the longest stall |
| SpoolFacts.AppendIsFresh | src/logs.rs:175-198 | every file left by an append was last written within a week of its last prune, the second one after a rotation |
| SpoolRuns.EveryRun | src/logs.rs:175-238 | the file invariant and conservation of records over any run of appends and id draws, with any clock readings |
| SpoolRuns.EveryRunFromEmpty | src/logs.rs:175-238 | from an empty spool, with any clock readings: what is stored and what was pruned are together exactly what was logged |
| SpoolRuns.KeptForAWeek | src/logs.rs:221-238 | over any run with a clock that does not go back, no record of the last seven days is ever pruned |
| SpoolRuns.NothingOlder | src/logs.rs:200-203 | after any run with such a clock that ends in an append nothing stored is older than eight days and twice the longest stall |
| SpoolRuns.AgeBoundIsTight | src/logs.rs:175-203 | for every stall there is a run that keeps a record up to one millisecond short of that bound |
| LogQuery.CompareIsTotalOrder | src/logs.rs:307-312 | newest first is a total order whose ties are exactly equal timestamp and id |
| LogQuery.CursorRoundTrip | src/logs.rs:314-321 | decoding a printed cursor gives back timestamp and id, for every id, even one with a bar |
| Text.ParsesExactly | src/logs.rs:318-321 | the number of a cursor is one or more digits, perhaps after a plus sign, in the u64 range |
| LogQuery.SortedIsUnique | src/logs.rs:284-284 | with distinct keys there is one sorted arrangement, so an unstable sort has one result |
| LogQuery.ReadFile | src/logs.rs:269-282 | the inner loop appends the wanted records of one file in order, passing over lines that are no records |
| LogQuery.ReadDirectory | src/logs.rs:263-283 | the outer loop collects the wanted records of every `.jsonl` file |
| LogQuery.CollectedExactly | src/logs.rs:263-283 | collected is exactly what some `.jsonl` file holds with the scope and the resource or job asked for |
| LogQuery.LogFileExactly | src/logs.rs:263-267 | read are the files whose name is a non-empty stem and `.jsonl` |
| LogQuery.PageFacts | src/logs.rs:284-304 | a page is the next records in order, within its size, with a cursor exactly if it does not show all |
| LogQuery.Query | src/logs.rs:252-305 | the page is the one some sorted arrangement of the collected records gives; all its records have the scope and the resource or job asked for, newest first, at most 500 and as many as the limit if there are more; no directory gives an empty page |
| LogQuery.AnswerIsUnique | src/logs.rs:284-304 | with distinct keys the page depends neither on the sort nor on the order of files |
| LogPaging.ResumeAfter | src/logs.rs:286-291 | a record's cursor resumes exactly at the records that come after it in the sorted list |
| LogPaging.LegacyCursor | src/logs.rs:286-295 | for every id: a bare id resumes where the record's cursor does, if and only if no newer record has the id or, if the id reads as a cursor, its place lies between the record and the next |
| LogPaging.StartsOverExactly | src/logs.rs:286-295 | a cursor shows everything again exactly if it is no place and no record's id, or a place newer than all |
| LogPaging.WalkIsComplete | src/logs.rs:252-305 | following `next` ends and the pages put together are the sorted list, each record once, for every limit |
| LogPaging.CompleteExactlyWhenKeysDistinct | src/logs.rs:286-304 | that holds for all limits if and only if keys are distinct |
| LogPaging.NothingTwice | src/logs.rs:252-305 | whatever happens to the spool between requests, no record is returned twice |
| LogPaging.PersistentRecordsReturnedOnce | src/logs.rs:252-305 | a record present at every request of a finished walk is returned exactly once |
| LogWalks.CollectedKeysDistinct | src/logs.rs:259-284 | if the records logged have distinct keys, what a query collects after any run, with any clock readings, has too |
| LogWalks.DrawnIdsAreKeys | src/logs.rs:118-219 | records whose ids were drawn from the generator, each used once, have distinct keys under any clocks and interleaving |
| LogWalks.NoDuplicatesWhileLogging | src/logs.rs:175-305 | with any appends, rotations and prunes between requests, and any clock readings, the walk repeats nothing and returns only stored records with the scope and the resource or job asked for |
| LogWalks.NothingMissedWhileLogging | src/logs.rs:175-305 | a record stored at the first request, with the scope and the resource or job asked for, and not pruned by the last, is returned exactly once, whatever its age and the clocks |
| LogWalks.NothingRecentMissed | src/logs.rs:175-305 | on a clock that does not go back: a matching record held at the first request and not a week old at the last is returned exactly once |
| Redact.PassMasksSecretsOnly | src/logs.rs:103-113 | one marker's pass cuts the text at first occurrences and whole whitespace-free runs, and loses nothing else |
| Redact.RedactMarker | src/logs.rs:103-113 | the in-place loop with its moving offset ends and computes that pass |
| Redact.RedactMessage | src/logs.rs:98-116 | the three loops compute the three passes in order |
| Redact.PassCleans | src/logs.rs:104-112 | after a marker's pass its every occurrence, wherever it arose, is followed by the mask and whitespace or the end |
| Redact.PassKeepsClean | src/logs.rs:102-114 | a later marker's pass keeps that for earlier markers |
| Redact.RedactedIsClean | src/logs.rs:98-116 | in a redacted message it holds for all three markers |
| Redact.RedactIsIdempotent | src/logs.rs:98-116 | redacting twice is redacting once |
| Streams.CutIsUnique | src/logs.rs:48-52 | any way to write a stream as separator-free segments, separators and a rest is the one the model computes |
| Streams.CutExists | src/logs.rs:48-52 | every stream can be written so |
| Streams.CutInTwo | src/logs.rs:47-48 | cutting a stream in two and carrying the rest over gives the same segments and the same rest |
| Streams.LevelExactly | src/logs.rs:53-61 | a line's level is the gravest named in it between blanks |
| Streams.EmitExactly | src/logs.rs:49-63 | a blank line logs nothing, any other once, from its first to its last character that is no white space |
| Streams.AgentLogWriter.WriteBytes | src/logs.rs:45-67 | one write mirrors the bytes, logs the non-blank completed lines in order and keeps the newline-free tail; nothing if stderr fails |
| Streams.AgentLogWriter.DrainLines | src/logs.rs:48-65 | the loop logs exactly the completed lines and ends with the tail pending |
| Streams.ChunkingIsInvisible | src/logs.rs:45-67 | for every way of cutting a byte stream into writes: the same log calls, the same pending tail |
| Streams.TakeChunk | src/jobs/runners/container/lxc.rs:609-617 | the byte loop extends the buffer and emits the segments the new bytes complete |
| Streams.NonEmptyExactly | src/jobs/runners/container/lxc.rs:626-633 | empty segments, and only those, are left out |
| Streams.DeliveredExactly | src/jobs/runners/container/lxc.rs:598-607 | delivered are the non-empty reads up to the first that is empty or fails; only a failed one is an error |
| Streams.StreamAndCollect | src/jobs/runners/container/lxc.rs:588-640 | returns the concatenation of all reads and emits exactly its non-empty CR/LF segments; a failed read is an error and emits no tail |
| ShellWords.EscapeScans | src/jobs/runners/container/shell.rs:35-48 | in any word, the quoted form of any value adds exactly that value |
| ShellWords.EscapesExactly | src/jobs/runners/container/shell.rs:35-45 | a value is left unquoted exactly if it is not empty and has only harmless characters |
| ShellWords.JoinRoundTrip | src/jobs/runners/container/shell.rs:27-33 | tokenising joined arguments gives the arguments, whatever they contain |
| ShellWords.ScriptScans | src/jobs/runners/microvm.rs:942-953 | the tokeniser reads back exactly the words and operators a script was built from |
| ShellWords.PrefixedValueScans | src/jobs/runners/container/lxc.rs:357-366 | after fixed commands and words, one quoted value is read as one word |
| GuestCommand.CheckKeysFacts | src/jobs/mod.rs:54-63 | validation passes exactly when every key is a shell name |
| GuestCommand.ValidatesExactly | src/jobs/mod.rs:50-65 | valid exactly if the program is not blank and every key is a shell name; else the blank program is reported, or the first bad key |
| GuestCommand.NameExactly | src/jobs/runners/container/lxc.rs:642-653 | a key is kept exactly if it is a letter or underscore and then letters, digits and underscores |
| GuestCommand.CompilesExactly | src/jobs/runners/container/lxc.rs:348-356 | a command is refused exactly if it names a directory that is neither the workspace nor starts with the docker directory |
| GuestCommand.EnvKeyIsPlain | src/jobs/runners/container/lxc.rs:642-653 | an emitted key is always a name the shell takes literally, with no `=` in it |
| GuestCommand.UserCommandScans | src/jobs/runners/container/lxc.rs:360-365 | the inner shell reads exactly `cd`, directory, assignments, `exec` and arguments |
| GuestCommand.UserCommandsParse | src/jobs/runners/container/lxc.rs:360-365 | and takes them as commands of which `&&` guards only the one after `cd` |
| GuestCommand.GuestShellReadsOneWord | src/jobs/runners/microvm.rs:805-814 | the guest's first shell reads the whole inner script as one word, for both runners |
| GuestCommand.WorkspaceIsFresh | src/jobs/runners/container/lxc.rs:357-359 | whatever was in the docker directory, before the user's command it holds exactly what the runner's archive does; each runner's own shell runs the command |
| GuestCommand.RunsAfterCd | src/jobs/runners/container/lxc.rs:360-365 | in a directory that can be entered the inner script makes every export in turn and hands the original arguments to `exec` |
| GuestCommand.RunsDespiteCd | src/jobs/runners/container/lxc.rs:360-365 | otherwise it stops if there are no exports, and else starts in the old directory without the first |
| GuestCommand.ExecIsExact | src/jobs/runners/container/lxc.rs:363-363 | `exec` runs exactly the words it is given if and only if the first is a plain operand: any option it takes shortens the argument vector |
| GuestCommand.CommandArrivesIntact | src/jobs/runners/container/lxc.rs:342-366 | through both shells, for the directory the command names, or the docker directory for none and the workspace: original arguments, that directory, every variable under its own name and value, all others as `cd` leaves them; if and only if the program is a plain operand of `exec` and no variable is one the shell keeps |
| GuestCommand.FailedCdStopsOnlyWithoutEnv | src/jobs/runners/microvm.rs:808-813 | through both shells, a directory that cannot be entered keeps `exec` from being reached if and only if there are no variables; else it runs in the old directory without the first |
| GuestNames.HalvePreservesCollapse | src/jobs/runners/microvm.rs:1024-1026 | one replacement of `--` by `-` changes nothing about the text with dash runs collapsed |
| GuestNames.MakeSafePathSegment | src/jobs/runners/microvm.rs:1013-1033 | the loop ends and its result has every maximal run of dashes collapsed to one |
| GuestNames.SafePathSegmentIsClean | src/jobs/runners/microvm.rs:1013-1033 | non-empty, only `[A-Za-z0-9_-]`, no leading, trailing or double dash |
| GuestNames.CleanSegmentsAreFixed | src/jobs/runners/microvm.rs:1013-1033 | a value is left alone if and only if it is already such a segment |
| GuestNames.SafePathSegmentIsIdempotent | src/jobs/runners/microvm.rs:1013-1033 | doing it twice is doing it once |
| GuestNames.SafePathSegmentKeepsContent | src/jobs/runners/microvm.rs:1013-1033 | letters, digits and underscores are kept, in order, and none added; only a value without any becomes `default` |
| GuestNames.ContainerNameExactly | src/jobs/runners/container/shell.rs:1-25 | the prefix, then the id from its first to its last letter or digit, cut at 56, in lower case with dashes for all else; or `job` |
| GuestNames.ContainerNameIsAccepted | src/jobs/runners/container/shell.rs:1-25 | every attempt id gives a name that matches the helper's pattern and its 63 characters |
| GuestNames.SumNeverWraps | src/jobs/runners/container/network.rs:42-44 | the 16-bit byte sum of a container name is its true sum |
| GuestNames.GuestAddressIsUsable | src/jobs/runners/container/network.rs:39-52 | for prefixes up to 24 the address is in the gateway's subnet and not the network, broadcast or gateway address |
| GuestNames.UsableForEveryContainerExactly | src/jobs/runners/container/network.rs:32-52 | that holds for the container name of every attempt id if and only if the prefix is at most 24 |
| ResolvConf.DedupeNameservers | src/jobs/runners/container/dns.rs:85-93 | the loop computes the deduplicated list |
| ResolvConf.DedupeFacts | src/jobs/runners/container/dns.rs:85-93 | same members, each once, in the order of first occurrences |
| ResolvConf.ParsedAreAddresses | src/jobs/runners/container/dns.rs:64-76 | what is parsed from any text is one-word, not loopback and without repeats |
| ResolvConf.ParsedExactly | src/jobs/runners/container/dns.rs:64-76 | found are exactly the usable words that stand after the keyword, blanks or not between, on some line before its comment |
| ResolvConf.LinesExactly | src/jobs/runners/container/dns.rs:67-67 | every line is read, and what follows the last newline too |
| ResolvConf.FileTextExactly | src/jobs/runners/container/dns.rs:95-113 | the file line by line: header, gateway if any, every server in order, options |
| ResolvConf.DirectCommandPrintsLines | src/jobs/runners/container/dns.rs:95-108 | the guest's shell removes the file and prints exactly header, nameserver and option lines into it |
| ResolvConf.OpeningScans | src/jobs/runners/container/dns.rs:110-113 | the gateway command opens with the removal, a group, and a `printf` of the header |
| ResolvConf.GatewayCommandScans | src/jobs/runners/container/dns.rs:110-113 | read from where its fixed head ends, the command is a `printf` of exactly the nameserver and option lines, the end of the group, and the file |
| ResolvConf.GatewayFirst | src/jobs/runners/container/dns.rs:110-113 | putting a gateway before a list without repeats and deduplicating moves it to the front |
| ResolvGuest.FirstServersExactly | src/jobs/runners/container/dns.rs:33-48 | the first file that can be read and names servers decides |
| ResolvGuest.ConfiguredExactly | src/jobs/runners/container/dns.rs:53-62 | configured are the pieces between commas that are not blank, without blanks around them |
| ResolvGuest.ConfiguredInOrder | src/jobs/runners/container/dns.rs:53-62 | in order, if none is blank and all differ |
| ResolvGuest.DirectWrites | src/jobs/runners/container/dns.rs:95-108 | run in a guest, the direct command leaves exactly the header, nameserver and option lines in the file and changes no other |
| ResolvGuest.GatewayWrites | src/jobs/runners/container/dns.rs:110-113 | run in a guest, the gateway command leaves the same with the gateway's line after the header if there is a gateway |
| ResolvGuest.RoundTrip | src/jobs/runners/container/dns.rs:33-114 | whatever the host's files hold: parsing the file the generated command leaves gives the chosen nameservers, with a usable gateway first and once |
| ResolvGuest.ConfiguredRoundTrip | src/jobs/runners/container/dns.rs:21-108 | any number of configured servers is read back through the command if and only if the parser takes each for an address |
| Migrations.StateRoundTrip | installers/ubuntu/24.04/update.sh:112-131 | reading the state line just written gives the id, for every valid id |
| Migrations.ReadsExactly | installers/ubuntu/24.04/update.sh:112-119 | a value is read exactly where the key, a colon with perhaps white space, and a quoted id stand |
| Migrations.LastValueExactly | installers/ubuntu/24.04/update.sh:112-119 | of a line with several such places the last counts; without any there is no value |
| Migrations.OrdersAgreeExactly | installers/ubuntu/24.04/update.sh:155-158 | file names sort as ids do if and only if neither id is the other followed by a dash |
| Migrations.BundleOrder | installers/ubuntu/24.04/update.sh:155-158 | a listed bundle is in id order if and only if it holds no such pair |
| Migrations.ListingFacts | installers/ubuntu/24.04/update.sh:155-155 | the listing of a set of migrations is in file-name order and holds exactly them |
| Migrations.Updater.ApplyMigrations | installers/ubuntu/24.04/update.sh:154-167 | the loop's effect on state file and history, and whether it reached its end; only scripts of the bundle that the manifest lists run |
| Migrations.DoneExactly | installers/ubuntu/24.04/update.sh:154-167 | the loop reaches its end exactly if every script whose id is greater than the recorded one and all listed before it was recorded |
| Migrations.RunsExactly | installers/ubuntu/24.04/update.sh:154-167 | a script runs exactly if it is such a one, all before it were recorded, and it completes |
| Migrations.Updater.Run | installers/ubuntu/24.04/update.sh:247-308 | the effect of the steps of one update, each of which may fail, with the old binary restored if the new one does not start |
| Migrations.UpdatesExactly | installers/ubuntu/24.04/update.sh:247-308 | an update succeeds exactly if every step did and no pending script was left; the new binary is left exactly if all steps up to its installation succeeded and the old one was not put back |
| Migrations.ApplyKeepsInvariant | installers/ubuntu/24.04/update.sh:133-167 | for a listed bundle without a dash pair, of this or an earlier release, wherever it stops: completed is a prefix, recorded lags by at most one, order kept; at its end nothing of the bundle is pending |
| Migrations.UpdateKeepsInvariant | installers/ubuntu/24.04/update.sh:247-308 | one update keeps that, touches the binary only with no bundle migration pending, leaves the old or the new binary, and the old one if the new does not start and a backup can be restored |
| Migrations.BundleCompletesExactly | installers/ubuntu/24.04/update.sh:155-167 | on a fresh host with every script succeeding, all run if and only if no id is another followed by a dash |
| Migrations.WrongWayRound | installers/ubuntu/24.04/update.sh:155-158 | a bundle of two valid ids of which one never runs |
| MigrationRuns.EverySequenceOfUpdates | installers/ubuntu/24.04/update.sh:112-308 | over any updates to growing releases, newer or older, with any stops: the invariant holds of the newest bundle if every release adds greater ids only and none holds a dash pair |
| MigrationRuns.InvariantExactly | installers/ubuntu/24.04/update.sh:112-308 | over all sequences of updates to growing releases it holds if and only if every release adds greater ids only and none holds a dash pair |
| MigrationRuns.RecordedNeverRunsAgain | installers/ubuntu/24.04/update.sh:112-167 | for any bundles of valid ids in any order, nothing runs once it or a greater id has been recorded |
| MigrationRuns.InstalledWasChecked | installers/ubuntu/24.04/update.sh:247-308 | over any updates the installed binary is the first one, or that of an update whose every step up to the installation, its download and check included, succeeded with nothing pending |
| MigrationRuns.TooLateForever | installers/ubuntu/24.04/update.sh:156-158 | an id that has not run when a greater or equal one is recorded never runs, in no later update to any release |
| MigrationRuns.InsertedIsSkipped | installers/ubuntu/24.04/update.sh:112-308 | after two successful updates, the second to a release that adds an id below the last of the first, that id has not run and the greater one has |
| MigrationRuns.InsertionLeavesGap | installers/ubuntu/24.04/update.sh:112-308 | wherever a sorted bundle is no prefix of a later one, two successful updates break the invariant |
| MigrationRuns.UniqueNumbersMakeNoPair | README.md:39-41 | valid ids with unique four-digit prefixes hold no dash pair |
| MigrationRuns.LateMigration | README.md:39-41 | two growing bundles with unique prefixes: after two successful updates the binary is replaced and `0001-a` has not run |
| Protocol.StatusesOf | src/transport/reconcile.rs:32-49 | one status per runtime, then one per workload, in order, with that object's kind, id and generation |
| Protocol.MakePlan | src/transport/reconcile.rs:28-79 | the two loops compute those statuses, with one event |
| Protocol.DecodeExactly | src/transport/protocol.rs:153-180 | a frame decodes to a message exactly if it has that message's type and its body reads as that type's |
| Protocol.DecodeOfEncode | src/transport/protocol.rs:153-180 | decoding the frame of a message gives the message |
| Dispatch.RepliesAnswer | src/transport/dispatch.rs:25-84 | a desired state is answered by one status per runtime and then per workload, with that object's kind, id, node and generation, and one event with the state's generation; a ping by a pong; nothing else at once |
| Dispatch.AnswerLogQuery | src/transport/dispatch.rs:86-122 | one result under the query's id: the page for its scope, resource, cursor and limit, or 200 |
| Dispatch.Session.SendStatuses | src/transport/dispatch.rs:79-81 | the loop queues the statuses in order |
| Dispatch.Session.ApplyDesired | src/transport/dispatch.rs:67-84 | queues one status per runtime and then per workload with its kind, id and generation, then one event with the state's generation, and remembers the state |
| Dispatch.Session.Resync | src/transport/dispatch.rs:128-137 | queues those statuses and no event, and leaves the remembered state |
| Dispatch.Session.Handle | src/transport/dispatch.rs:25-65 | per message: what is queued, remembered and handed to a task, and whether the session goes on |
| Connection.StrayFramesChangeNothing | src/transport/protocol.rs:153-180 | in the loop a text frame leaves the session as it was exactly when it is malformed, unknown or a handshake message |
| Connection.OnlyTheAwaitedMessageCounts | src/transport/session.rs:336-373 | while waiting in the handshake, exactly the awaited message has an effect |
| ConnectionFacts.WireFollowsSendOrder | src/transport/session.rs:103-185 | in every run the wire is a prefix of hello, auth and the send order; auth only after a challenge, more only after a welcome |
| ConnectionFacts.MainOrderIsProgramOrder | src/transport/session.rs:189-279 | in every run the main loop's messages enter the channel in program order, none missing, added or repeated |
| ConnectionAnswers.EveryEventIsAnswered | src/transport/session.rs:189-279 | in every run what the main loop sent, lost and has left to send is one piece per event: for a desired state its statuses and one event, field by field; for a resync tick the statuses of the latest one, or nothing |
| ConnectionAnswers.EveryMessageIsHandled | src/transport/session.rs:216-279 | in every run the messages decoded after the welcome are those handled, in order |
| ConnectionAnswers.GoawayEnds | src/transport/session.rs:216-279 | in every run a session ends with a delay exactly if it handled a goaway, which is then the last thing it did and names the delay |
| ConnectionProgress.IdleLoopHandles | src/transport/session.rs:216-228 | in the loop a decoded frame is handled; a goaway ends the session with its delay, a desired state is remembered, a log query gets its task |
| ConnectionProgress.IdleLoopTakes | src/transport/session.rs:229-279 | each timer leads to its event; a stop, or a lost connection while stopping, ends the session for good, any other loss with an error |
| ConnectionProgress.HandshakeFails | src/transport/session.rs:103-185 | a frame that cannot be written, a lost connection, a timeout or a welcome that asks for an upgrade ends the handshake with an error |
| ConnectionProgress.SessionStarts | src/transport/session.rs:103-214 | there is a run through the handshake into the loop for any nonce, welcome, metrics and system information |
| ConnectionProgress.EverythingCanBeDelivered | src/transport/session.rs:103-185 | from every state of every run with a living writer, main loop and writer alone can put everything on the wire, in order |
| ConnectionProgress.TasksEnd | src/transport/dispatch.rs:86-122 | a task's result goes into the channel under its query's id; a task that fails sends nothing |
| ConnectionProgress.WriterEnds | src/transport/session.rs:103-185 | once a write fails nothing more is put on the wire, and what is sent is lost |
| ConnectionReports.OneEventPerDesired | src/transport/dispatch.rs:67-84 | the events called for are as many as the desired states handled; ticks call for none |
| ConnectionReports.StatusesAreOwn | src/transport/session.rs:187-272 | every status called for is of an object in a desired state handled on the same connection |
| ConnectionReports.AtMostOneResultPerQuery | src/transport/dispatch.rs:86-122 | in every run the results queued carry ids of queries handled, at most one each, and all once none is open, failed or lost |
| ConnectionReports.RepublicationIsSpaced | src/transport/session.rs:294-319 | in every run two system-info frames in a row with equal hashes are at least the republish interval apart |
| ConnectionAnswers.InfoIsNeverStale | src/transport/session.rs:294-319 | in every run, with nothing left to send and a living writer, no successful check is the interval or more after the last publication; so an unchanged hash is published again when due |
| ConnectionReports.CheckedIsCurrent | src/transport/session.rs:294-319 | in every run, with nothing left to send, the last frame carries the last collected hash; the remembered hash and time are always the last frame's, so failed checks leave both |
| ConnectionReports.EachConnectionIsARun | src/transport/session.rs:48-80 | whatever steps the agent's connections take together, each is in a state a run of it alone reaches |
| ConnectionReports.OneMainTask | src/transport/session.rs:48-80 | of the agent's connections all but the last are over |
| ConnectionReports.AgentGoesOn | src/transport/session.rs:48-80 | after a connection is over a new one starts afresh; the writer and tasks of an earlier one may go on |
| ConnectionReports.ConnectionsDoNotMix | src/transport/session.rs:187-272 | no connection's status comes from an earlier connection's desired state, and its events equal its desired states handled |
| Readiness.WaitForGuest | src/jobs/runners/microvm.rs:642-695 | the job loop stops in the first turn that does not go on, with that turn's verdict, after at most T/2 probes rounded up, by T+2 seconds, and ready only by T |
| Readiness.WaitForProjectGuest | src/jobs/runners/microvm.rs:697-743 | the same for project machines, by T+7 seconds |
| Readiness.BoundedWait | src/jobs/runners/microvm.rs:642-743 | those bounds for all probe durations and answers |
| Readiness.ReadyExactlyWhenAProbeSucceeds | src/jobs/runners/microvm.rs:675-677 | ready if and only if a probe begun before the deadline, with the process alive so far, succeeded within its limit |
| Readiness.TurnsExactly | src/jobs/runners/microvm.rs:642-743 | a turn that goes on takes its probe's time, at most five seconds and for a job no more than is left, and two seconds of pause |
| Readiness.FailsExactly | src/jobs/runners/microvm.rs:642-743 | a loop fails for the process exactly if a job's is not running, and for time exactly if its deadline has passed; a job then tells what its last probe did |
| Readiness.UpIsNoticed | src/jobs/runners/microvm.rs:642-743 | a guest up from some time on is found ready within seven seconds and one answer, if the deadline leaves that long |

## Left out

- The websocket, TLS and HTTP libraries, JSON and hashing: frames arrive decoded or malformed, hashes are opaque, serialisation is an injective map to lines without a newline or trailing carriage return.
- File-system faults, invalid UTF-8 in a log file, crashes in the middle of one write, and several processes that share a spool: a restarted process counts ids from zero again, so the paging theorems over runs are about one process.
- A limit on file size of the whole u64 range: the size limit is below the u64 maximum, the code's is 100 MiB.
- The order in which `read_dir` lists files: a directory is a list in any order.
- GuestCommand.CommandArrivesIntact: a variable the shell computes or keeps is given by the value the program finds for it; which names those are in a given shell, and programs that cannot be found, are not modelled. The environment stated is the one handed to `exec`: what bash changes there itself (it lowers `SHLVL` and sets `_`) is left out.
- ResolvGuest.GatewayWrites: the route lookup and the test of its answer are fixed text outside the tokeniser's fragment and are given their meaning; the rest of the command is read and run.
- GuestNames.SumNeverWraps: the byte sum is over ASCII names, which container names always are; `WrappingSum` of other names is not that of their UTF-8 bytes.
- Parsing of dotted addresses: a network is three octets, the gateway's last octet and a prefix.
- Lexical work of the shell on fixed text: reserved words, redirections and expansions in the generated prefix are tokens, not run; the model gives the preparation its effect on the docker directory, and runs the last command, which starts the inner shell.
- Migrations.OrdersAgreeExactly: names are compared in byte order, as in the C locale; other locales collate differently.
- The state file is one line, as `write_migration_state` leaves it; the manifest is the set of its ids; downloads, checksums, the lock, the version file and enabling the service after a start are one outcome or none.
- The Arch and Debian updaters: the one repeats this logic, the other calls this script.
- Identifiers and times inside statuses and events, log blocks and wording.
- The delay of the reconnect loop (`src/transport/session.rs:74-78`) and a stop signal during it: a next connection may start at any time after the last one's main task is over.
- A resync interval of zero seconds, which the timer library refuses.
- The select loop takes one event at a time; which ready branch it picks is any, so fairness is not part of this model.
- Progress lines and their timer in the readiness loops.
- Metrics and system-info collection, enrollment, configuration, WireGuard, the command line and process spawning: thin wrappers.
