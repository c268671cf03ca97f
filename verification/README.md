# Verified model of mini-runner

mini-runner keeps four registries: jobs, services with their resource limits, and environment variables. Each is an
array of pointers to heap records, saved as delimiter-separated text and rebuilt by a scanner when the program starts.
A daemon reloads, runs and rewrites the jobs once per tick. This project models that code in Dafny and proves what it
keeps over whole runs, and exactly where it does not.

How the model is built:

- `CStrings`, `Decimal`, `Arithmetic`: C strings, fixed-width integers, `%li`/`%i`, `atol`/`atoi`/`atoll` with saturation
  and truncation, the 128-bit printer with its two buffers, and division as the other modules need it.
- `Scanner`: the scanning loop that all four loaders share. `Tokens` gives the fields of a file; `Codec` and `Load`
  give the loading rules of one registry (delimiters, early exits, duplicate rules, and the record counts at which the
  allocation still has room). The laws are proved once, for every codec.
- `Table`: the growable pointer array as a class over an array of heap cells, with the one-loop find, free, shift and
  delete machine. `Valid` says that the live prefix points at pairwise different cells, none of which has been freed.
- `Loader`: the loading loop that the services, limits and env scanners share, over any codec and any way to grow the
  array; a write behind the array is an outcome, not a precondition.
- `Jobs`, `Services`, `Limits`, `Envs`: one registry each, with its format, its loader, its saver loop and its
  operations on the table, proved against functions on record lists. `Jobs` has a five-state loop of its own;
  `TruncatedLines` shows what becomes of service lines longer than the saver's buffer.
- `Sessions`, `EnvSessions`, `Registries`, `ServiceSessions`: runs of commands and whole histories of runs on files, for
  jobs, envs, and services with their limits; `Catalog` refines the commands to operations on maps. `Program` is one
  process with all four registries, where a command that exits or dies does so for all of them; `Tables` is that
  process over its four tables.
- `Daemon`, `Schedule`: the daemon loop as steps, and the arithmetic of its ticks.
- `Files`, `Recovery`: snapshot copies, time shift, and a save interrupted at any point.
- `FolderDeletion`, `Splice`, `Script`, `Arena`, `Validators`: recursive deletion over a file tree, the string splice,
  the script interpreter's scanners, the bump allocator, the argument checks.

The outcomes of foreign calls (a run's pid and time, whether a clone, a folder or a cgroup operation worked, whether a
directory change worked, what lies in memory behind a mapping) are parameters; system calls on the file tree choose
their outcome freely. `exit_program` aborts without saving, so a rejected load leaves the files alone.

Where the code falls short of its intent, the code is modelled and the exact condition is proved:

- `save_jobs_daemon` tests the job count at fork: the jobs survive a cycle exactly when that count and the list are
  both zero or both nonzero (`CycleKeepsJobsExactly`), and any number of cycles likewise (`CyclesKeepJobsExactly`).
- The handler reads the backup as a C string: a backup that fills its last page is read on behind its mapping
  (`HandlerRestoresExactly`).
- `saveLimits` compares a `size_t` with -1 for every record after the first, which always holds: with two or more
  limits the process dies there, after services, jobs and envs are saved, and the limits file stays
  (`SecondLimitIsFatal`). The save ends exactly for at most one limit, and that one comes back exactly below 2^63
  (`LimitsRoundTripExactly`). So two limits set in one session are both lost (`TwoLimitsAreLost`), and a limit may be
  left without its service (`DeletedServiceKeepsLimit`): limits and services stay together exactly over settled
  sessions (`SessionsKeepIntegrityExactly`). The wrong sum of lengths behind that comparison is never reached.
- `loadLimit` grows to a number of bytes, so of a clean file a fifth limit is written outside the array
  (`CleanFileLoadsExactly`); the program itself never writes more than one (`HistoryIsDurable`).
- Env growth stores a byte count as capacity: there is room for exactly forty (`RoomExactly`, `FortyFirstEnvCorrupts`).
- The env validators let a newline pass, the scanner ends a value there (`EnvsRoundTripExactly`).
- `renameService` does not ask whether the new name is free (`RenameKeepsIntegrityExactly`); after a rename to a used
  one every later start refuses the services file (`RenameReloadsExactly`), so no file is ever written again
  (`UsedRenameLocksOut`). `renameEnv` does not ask either (`RenameKeepsUniqueExactly`).
- Removing the last record gives up the array, and the add paths write through the null pointer: the run dies before it
  saves, for all registries (`EnvCrashLosesJobs`). Runs survive exactly when they add no job or service after emptying
  that list and no clone exits (`Sessions.RunSurvivesExactly`, `ServiceSessions.CallsSurviveExactly`), and no env after
  emptying theirs or to a list of forty (`EnvSessions.RunSurvivesExactly`). The failing runs are
  `AddAfterEmptyingCrashes` of each of the three modules.
- `set-limit` with a cpu limit and a custom or extreme size asks for the limits to be saved only when it fails
  (`CustomLimitIsLost`): a session's limits reach the next start exactly when some executed command asked to save and
  they are at most one, below 2^63, or otherwise when they are those of the old file (`LimitsAreKeptExactly`).
- The argument array that `getParse` grows is never stored: a line of twenty words or more is written past it, and the
  run is not followed further (`GetParse`, `FitsExactly`, `LongLineOverruns`).
- `deleteFolderFdRc` compares raw system calls with -1: other listing errors count as the end of the directory, other
  open errors as a descriptor. What it reports holds exactly when the listing left nothing out (`DeleteInside`).
- `bMalloc` asks only whether the arena is full (`AllServedExactly`); behind a block that sticks out the arena counts as
  full exactly when the index has not wrapped around (`StickingFillsExactly`).

The rules printed by `exceptions/messages/env/help.c` for env values name only the two delimiters, not the newline; the
model follows the code.

## Model

| member | source | states |
|---|---|---|
| Decimal.LongRoundTrip | fini/save_jobs.c:155 | `%li` then `atol` is the identity exactly on the 64-bit signed range |
| Decimal.UnsignedLongRoundTrip | init/job_init.c:127-132 | every unsigned 64-bit interval survives print and read, also where it prints negative |
| Decimal.PidRoundTrip | init/job_init.c:146-147 | every unsigned 32-bit pid survives `%i` and `atoi` |
| Decimal.PrintAlphabet | fini/save_jobs.c:155 | a printed number contains no character but digits and the minus sign, so no delimiter |
| Decimal.DigitCount | res_man/utils/helper.h:14-17 | at most k digits exactly below ten to the k |
| Decimal.DigitsOf128 | res_man/utils/helper.h:14-20 | no 128-bit number has more than 39 digits, so the cap of 64 cuts none |
| Decimal.NoLeadingZero | res_man/utils/helper.h:14-21 | a positive number prints without leading zero |
| Decimal.DigitsRead | res_man/utils/helper.h:14-17 | the printed digits have the value of the number |
| Decimal.DigitsText | res_man/utils/helper.h:14-17 | the text of 10n + d is the text of n with the d-th of the ten digit characters behind it, and that of zero is "0" |
| Decimal.PrintText | fini/save_jobs.c:155 | a printed number is the text of its magnitude, behind a minus sign exactly when it is negative |
| Decimal.SignedText | fini/save_jobs.c:155 | an unsigned number handed to a signed format is itself in the lower half and less the modulus in the upper |
| Decimal.UnsignedColumn | fini/save_jobs.c:155 | a 64-bit column holds plain digits below 2^63, and above the negative of what is missing to 2^64 |
| Decimal.AtolReads | init/job_init.c:101-132 | white space, an optional sign and the digits of a number, whatever follows that is no digit, read as that number, cut at the ends of long |
| Decimal.AtolOfNoNumber | init/job_init.c:124-132 | text that starts with no number reads as zero |
| Decimal.AtoiKeepsLowBits | init/job_init.c:141-147 | an int read from a pid column is congruent modulo 2^32 to the long read from it |
| Decimal.SaturateIs | init/limit_init.c:81 | a number beyond either end of long is read as that end |
| Decimal.SpacesAre | init/job_init.c:101 | white space is the six characters of the C locale |
| CStrings.CutAtNulFirst | init/job_init.c:20-29 | of a copied field only the text before its first NUL is seen, whatever lies behind |
| Decimal.Uint128ToChars | res_man/utils/helper.h:5-23 | both loops, in bounds: the buffer holds the decimal digits of the number and a NUL |
| Decimal.Uint128RoundTrip | res_man/utils/helper.h:30-32 | reading the printed number back gives it exactly when it is below 2^63 |
| Scanner.ScanJoined | init/job_init.c:70-168 | fields that lack only their own closing delimiter are found again exactly, and the scan goes on behind them |
| Scanner.ScanIsLossless | init/job_init.c:70-168 | fields, delimiters and remainder rebuild the file; the remainder closes no field |
| Scanner.ScanIsUnique | init/job_init.c:70-168 | the scan is the only decomposition of the file into clean fields and an unclosed remainder, and conversely |
| Scanner.ScanConcatenation | init/job_init.c:70-168 | scanning a+b is scanning a, then its unclosed rest with b from the state reached |
| Scanner.LoadEncoded | init/job_init.c:70-168 | loading a saved list in front of more data is loading that data behind the list |
| Scanner.RoundTrip | init/job_init.c:70-168 | storable, compatible records within the allocation come back from their file, which is used up, and the scan ends in its first state |
| Scanner.RoundTripExactly | job_ops/load_job.c:23-31 | storable records within the allocation come back exactly when they are pairwise compatible; otherwise every load exits |
| Scanner.OverfullCorrupts | utils_ops/load_limit.c:23-35 | a saved list longer than the allocation holds ends in a write behind it, whatever follows in the file |
| Scanner.LoadedRows | job_ops/load_job.c:23-37 | whatever the file, a successful load yields pairwise compatible records decoded from clean fields |
| Scanner.LoadsExactly | init/job_init.c:70-168 | any fields at all load exactly when none of them makes the loader exit, be its record complete or not, no two records clash and each finds room; and then to the records that the groups of fields decode to |
| Table.Table.FindFirst | job_ops/load_job.c:23-31 | the lookup loop returns the position of the first match, or the count |
| Table.Table.Grow | job_ops/load_job.c:10-20 | growth keeps every record and makes room for one more, when the new array is large enough |
| Table.Table.Push | job_ops/load_job.c:32-37 | the new record goes behind the others in a fresh cell |
| Table.Table.Append | utils_ops/load_project.c:54-71 | growth and the write of the new pointer, which is inside exactly when there is room |
| Table.Table.DeleteLoop | job_ops/delete_job.c:12-46 | the one-loop machine: matched cell freed, later pointers shifted by one, count dropped, array given up when empty |
| Table.Table.RemoveFirst | job_ops/delete_job.c:12-51 | removes exactly the first match, keeps order and all other cells, frees one cell that no live slot refers to; no match changes nothing |
| Table.Table.Restart | job_ops/run_jobs.c:69-87 | every cell is freed, counters are zero, a new array is there |
| Loader.LoadRecord | utils_ops/load_project.c:32-71 | refuses a clash, else grows and appends, or reports the write behind the array |
| Loader.LoadFile | init/main_init.c:97-148 | the scanning loop over any codec computes the loading of the file, early exits and writes behind the array included |
| Jobs.JobLineIsJoin | fini/save_jobs.c:155 | the printed line is the five fields, each closed by its delimiter |
| Jobs.GoodJobIsStorable | fini/save_jobs.c:155 | a job with delimiter-free name and path and nonzero interval decodes back to itself |
| Jobs.JobsRoundTrip | init/job_init.c:62-168 | save then load is the identity on good job lists; the scan ends in `FIND_NAME` with `lastIndex` at the end of the file |
| Jobs.LoadedJobsAreGood | init/job_init.c:62-168 | any loaded list has distinct names and paths, nonzero intervals and clean fields |
| Jobs.JobsLoadExactly | init/job_init.c:62-168 | any jobs file loads exactly when no interval field in it is zero, be it of an unfinished line, and no name or path occurs twice; and then to its jobs; otherwise it is refused |
| Jobs.JobColumns | fini/save_jobs.c:155 | the five columns of a saved job as decimal text, interval and pid signed by their widths |
| Jobs.JobLineExample | fini/save_jobs.c:155 | a job of interval 60 that never ran is written `a^/b#0$60@0` |
| Jobs.NegativeJobLineExample | fini/save_jobs.c:155 | a job whose three numbers all print negative is written `c^/d#-12$-1@-1` |
| Jobs.LoadJob | job_ops/load_job.c:9-39 | refuses a known name or runnable file, else appends |
| Jobs.DeliverJob | init/job_init.c:139-165 | the last scanner state reads the pid and delivers the decoded record, or the whole load is rejected |
| Jobs.StoreField | init/job_init.c:75-138 | the other states store their field; an interval of zero rejects the load |
| Jobs.LoadJobs | init/job_init.c:34-172 | the five-state loop computes the loading of the file; on success `lastIndex` points at the unclosed rest |
| Jobs.EncodeJobs | fini/save_jobs.c:136-176 | the accumulator loop yields the encoding of the list, null for none |
| Jobs.CreateJob | job_ops/craete_job.c:18-78 | appends exactly when neither name nor path is known |
| Jobs.RemoveJob | job_ops/delete_job.c:8-52 | removes the first job of the name, reports whether there was one, gives up the array with the last |
| Sessions.CommandKeepsGood | job_ops/craete_job.c:29-74 | a validated command keeps names and paths distinct, intervals nonzero, fields clean |
| Sessions.ValidatorsMatchFormat | exceptions/jobs/job_exceptions.c:20-54 | job names and paths are valid exactly within their length and without the first four of the file's five delimiters |
| Sessions.DroppedNameIsGone | job_ops/delete_job.c:12-46 | after a removal exactly the jobs of other names remain |
| Sessions.RunSurvivesExactly | job_ops/craete_job.c:46-74 | a run reaches its end exactly when it adds no job after emptying the list; then it is the run on a plain list |
| Sessions.AddAfterEmptyingCrashes | job_ops/delete_job.c:38-46 | add, remove, add on an empty table writes through null |
| Sessions.RunIsDurable | fini/save_jobs.c:125-186 | after one run on a loadable file, the file loads to exactly the list the run ended with |
| Sessions.FileAfterRun | main.c:144-171 | the file after a run is the text of what a plain list comes to exactly when the run adds nothing after emptying it, and otherwise the file as it was |
| Sessions.SessionsAreDurable | fini/save_jobs.c:125-186 | after any runs of any commands, the file loads to the list computed without any file, and the list is good |
| Sessions.RejectedFileStays | init/job_init.c:160-162 | a file the loader refuses is never changed |
| Sessions.ExecuteOn | main.c:473-520 | one command on the table does what the abstract command does, crash included |
| Sessions.RunProgram | main.c:102-154 | load, commands, save on the table compute the abstract run on the file |
| Schedule.DueCountExact | job_ops/run_jobs.c:139 | due counts over any number of cycles, through every wrap of the 64-bit counter |
| Schedule.DueCountBeforeWrap | job_ops/run_jobs.c:139 | ceil(n/I) due ticks in n cycles up to 2^64 |
| Schedule.NextDueTick | job_ops/run_jobs.c:32 | due ticks are exactly one interval apart |
| Schedule.WrapKeepsSpacing | job_ops/run_jobs.c:200 | the wrap respects an interval exactly when it divides 2^64 |
| Schedule.LcmExists | job_ops/run_jobs.c:139 | any two intervals have a least common multiple |
| Schedule.DueTogether | job_ops/run_jobs.c:139 | two jobs are due together exactly at the multiples of the least common multiple |
| Daemon.CycleKeepsJobsExactly | fini/daemon_save_jobs.c:128-133 | a cycle keeps the job list exactly when fork count and list are both zero or both nonzero |
| Daemon.CyclesKeepJobsExactly | fini/daemon_save_jobs.c:128-133 | over any number of cycles the job list is kept exactly when fork count and list are both zero or both nonzero |
| Daemon.CycleWritesRunJobs | fini/daemon_save_jobs.c:134-184 | the file after a cycle loads to the list with the due jobs run |
| Daemon.DaemonRunIsFaithful | job_ops/run_jobs.c:121-207 | after n cycles: the same jobs in order, each with pid and time of its latest successful due attempt, attempted as often as it was due |
| Daemon.AttemptsAreCeiling | job_ops/run_jobs.c:134-200 | the job of interval I was attempted exactly ceil(n/I) times in n cycles up to 2^64 |
| Daemon.LatestRunIsKept | job_ops/run_jobs.c:134-191 | after any number of cycles each job holds the pid and time reported by its latest run, which is looked up in the world's answers alone, or, without one, those it started with |
| Daemon.UnloadableFileStalls | job_ops/run_jobs.c:123-133 | a file that does not load stops ticks, runs and writes for good |
| Daemon.Process.RunDueJobs | job_ops/run_jobs.c:134-191 | the loop writes pid and time into exactly the due records |
| Daemon.Process.Save | fini/daemon_save_jobs.c:123-185 | erases, encodes or dereferences null, by fork count and list |
| Daemon.Process.Turn | job_ops/run_jobs.c:121-207 | one loop turn on the table is one abstract cycle |
| Services.GoodServiceIsStorable | ops/create_service.c:88 | a cloned service with clean fields decodes back to itself |
| Services.ServiceLineExample | ops/create_service.c:88 | a service of process id 12 is written `a^b#12` |
| Services.ValidatedLineFits | exceptions/services/services_exceptions.c:51-75 | a validated line has at most 134 characters, well inside the 318-byte buffer |
| TruncatedLines.ServicesRoundTripExactly | ops/create_service.c:76-109 | saved services come back exactly when no line of a cloned one is cut by the buffer, however cut lines run together |
| Services.ServicesRoundTrip | ops/create_service.c:49-151 | the cloned services come back in order with name, repository and pid; with none cloned the file stays |
| Services.ServiceSurvivesExactly | ops/create_service.c:86-88 | a single cloned service survives exactly when its line fits the buffer |
| Services.AddService | utils_ops/load_project.c:32-71 | refuses a known repository or name, else appends |
| Services.LoadServices | init/main_init.c:97-148 | the three-state loop computes the loading of the file and never leaves the array |
| Services.LoadedServicesAreGood | utils_ops/load_project.c:32-71 | any loaded list has distinct names and repositories, clean fields, and only cloned services |
| Services.FindCloned | ops/create_service.c:49-58 | the search loop says whether any service is cloned |
| Services.CollectLines | ops/create_service.c:76-109 | the loop collects the buffered lines of the cloned services, null for none |
| Services.SaveServices | ops/create_service.c:44-156 | the file is left alone, erased or replaced as specified |
| Limits.MemoryTextRoundTrip | job_res_man/get_limit.c:25-41 | the job memory limit fits the read buffer and comes back exactly below 2^63 |
| Limits.LimitLineExample | fini/save_limit.c:124-134 | a limit of 12 bytes and cpu 60 is written `a^12#60`, the memory first |
| Limits.NegativeMemory | init/limit_init.c:81-88 | a negative memory column is read as 2^128 less its magnitude |
| Limits.LimitIsStorableExactly | init/limit_init.c:73-108 | a limit decodes back to itself exactly when its memory is below 2^63 |
| Limits.CleanFileLoadsExactly | utils_ops/load_limit.c:23-35 | of a clean file up to four limits load, their memory cut to the largest long; with more a write goes outside the array |
| Limits.LoadedLimitsAreGood | init/limit_init.c:60-130 | any loaded list has distinct clean names and at most four limits |
| Limits.AlwaysAtMostMinusOne | fini/save_limit.c:139-143 | the comparison that guards every record after the first holds for every size |
| Limits.LimitsRoundTripExactly | fini/save_limit.c:109-166 | limits are saved and come back exactly when there is at most one, of a memory below 2^63 |
| Limits.SavedLimitsReload | fini/save_limit.c:113-166 | every save leaves a file that loads: to the one limit with its memory cut, or, with two or more, to what the old file held |
| Limits.LimitsComeBackExactly | fini/save_limit.c:113-166 | the next start loads the process's limits exactly when they are at most one below 2^63, or more and those of the old file |
| Limits.SecondLimitIsFatal | fini/save_limit.c:138-143 | with two limits nothing is written and the file stays |
| Limits.SingleLimitRoundTripExactly | fini/save_limit.c:123-137 | one limit is saved and loaded exactly when its memory is below 2^63 |
| Limits.LoadLimit | utils_ops/load_limit.c:12-39 | refuses a known name, appends up to four, and writes a fifth outside the array |
| Limits.InitLimits | init/limit_init.c:34-139 | the three-state loop computes the loading of any file, the write outside the array included |
| Limits.SaveLimits | fini/save_limit.c:109-166 | the loop yields the text of at most one limit and dies at a second |
| Limits.CreateLimit | utils_ops/create_limit.c:16-53 | replaces both numbers of the limit of that name or appends one; nothing without an array |
| Limits.RemoveLimit | utils_ops/remove_limit.c:14-47 | removes the first limit of the name, if any |
| Limits.RenameLimit | utils_ops/rename_limit.c:11-28 | renames the first limit of the name; fails exactly without an array |
| Envs.EnvIsStorableExactly | env_man/parse.c:88-109 | a validated env decodes back to itself exactly when its value has no newline |
| Envs.EnvsRoundTripExactly | fini/save_parse.c:104-135 | save then load is the identity exactly when there are at most forty envs and no value has a newline |
| Envs.FortyFirstEnvCorrupts | env_man/load_env.c:19-30 | a saved list of more than forty envs loads with a write behind the array |
| Envs.LoadedEnvsAreLoadable | env_man/parse.c:55-112 | any loaded list has distinct pairs, clean fields without newlines in values, and at most forty envs |
| Envs.RenameKeepsUniqueExactly | env_man/rename_env.c:6-22 | a bulk rename keeps pairs distinct exactly when the names are equal or no key collides |
| Envs.RoomExactly | env_man/add_env.c:39-53 | there is room for one more exactly while the array is there and holds fewer than forty |
| Envs.AppendEnv | env_man/add_env.c:11-61 | leaves a known pair alone, appends a new one, or writes through null or behind forty slots |
| Envs.LoadEnvs | env_man/parse.c:28-114 | the three-state loop computes the loading of any file, the write behind forty slots included |
| Envs.SaveEnvs | fini/save_parse.c:96-148 | the loop writes the encoding of the list |
| Envs.DeleteEnv | env_man/remove_env.c:7-57 | removes the first env of the pair and reports whether there was one |
| Envs.ChangeEnv | env_man/update_env.c:8-26 | overwrites the value of the first env of the pair |
| Envs.RenameEnv | env_man/rename_env.c:6-22 | every env of the name gets the new one; fails exactly without an array |
| EnvSessions.RunSurvivesExactly | env_man/add_env.c:39-53 | a run reaches its end exactly when it adds no new env to a list it has emptied and none to a list of forty; then it is the run on a plain list |
| EnvSessions.AddAfterEmptyingCrashes | env_man/remove_env.c:44-50 | add, remove, add on an empty table writes through null |
| EnvSessions.FortyFirstAddOverwrites | env_man/add_env.c:39-53 | adding to a list of forty writes behind the array |
| EnvSessions.AddThenRemove | env_man/remove_env.c:15-54 | removing an env just added restores the list; the array is gone exactly when the list was empty |
| EnvSessions.RunKeepsUnique | env_man/add_env.c:17-57 | every run that reaches its end leaves (name, key) distinct |
| EnvSessions.RunIsDurableExactly | fini/save_parse.c:96-148 | the file after a run loads to its final list exactly when no value in it has a newline |
| EnvSessions.ValidatorsMatchFormat | exceptions/env/env_exceptions.c:31-56 | env texts are valid exactly without the delimiters that close name and key; the newline that closes the value is not kept out |
| EnvSessions.FileAfterRun | main.c:144-171 | a run that adds no env to an emptied list or to one of forty saves what a plain list comes to; any other changes no file it leaves |
| EnvSessions.SessionsAreDurable | main.c:110-170 | after any runs without newlines in values the file is defined exactly when no run writes behind the array, and loads to the replayed list |
| EnvSessions.ExecuteOn | main.c:596-644 | one command on the table does what the abstract command does, crash and overwriting included |
| EnvSessions.RunProgram | main.c:115-166 | load, commands, save on the table compute the abstract run on the file |
| Registries.AddKeepsIntegrity | utils_ops/add_project.c:34-75 | an add keeps names and repositories distinct and limits attached |
| Registries.LimitKeepsIntegrity | res_man/cpu/cpu_limit.c:117-136 | setting a limit keeps limit names distinct and attached |
| Registries.DeleteKeepsIntegrity | ops/delete_service.c:179-263 | deleting a service with its limit leaves no limit without service |
| Registries.RenameKeepsIntegrityExactly | ops/rename_service.c:268-313 | an effective rename keeps the invariant exactly when the new name is the old one or unused |
| Registries.RunKeepsIntegrity | ops/rename_service.c:268-313 | every run whose renames are fresh keeps both registries consistent |
| Registries.ReloadKeepsIntegrityExactly | ops/create_service.c:49-151 | what services and limits load to after a save, new or from the old files, and that they fit together exactly when the limits are attached; with both new, when each belongs to a cloned service |
| Registries.AddProject | utils_ops/add_project.c:24-82 | the add on the table does what the abstract add does, crash included |
| Registries.SetResourceLimit | res_man/cpu/cpu_limit.c:112-140 | the limit command on both tables |
| Registries.SetPid | ops/stop_service.c:139-150 | exactly the named service's process id changes |
| Registries.RenameService | ops/rename_service.c:268-313 | the rename on both tables |
| Registries.DeleteService | ops/delete_service.c:179-263 | the delete on both tables, arrays given up when emptied |
| ServiceSessions.SessionIsDurable | main.c:144-171 | one session with fresh renames: both files load to what the session leaves without files, a fatal save of limits included |
| ServiceSessions.SessionsAreDurable | main.c:144-171 | after any history with fresh renames both files load to what it gives without files; from at most one limit there never is more than one in the file |
| ServiceSessions.SessionKeepsIntegrityExactly | main.c:151-166 | a session leaves limits that fit the services exactly when it does not die at a second limit, or the old limits' services are still there |
| ServiceSessions.SessionsKeepIntegrityExactly | main.c:151-166 | over a whole history limits and services always fit together exactly when every session is settled in that sense |
| ServiceSessions.TwoLimitsAreLost | fini/save_limit.c:138-143 | two limits set in one session, where there were none, are both lost |
| ServiceSessions.DeletedServiceKeepsLimit | fini/save_limit.c:138-143 | limits set on two services and a third one deleted in one session leave the third one's limit without a service |
| ServiceSessions.CallsSurviveExactly | utils_ops/add_project.c:56-82 | a run reaches its end exactly when it registers no service after emptying the list and no clone exits; then it is the run on arrays in place |
| ServiceSessions.AddAfterEmptyingCrashes | ops/delete_service.c:228-233 | add, delete, add on empty tables writes through null |
| ServiceSessions.LimitsAreKeptExactly | main.c:164-171 | a session's limits are what the next start loads exactly when some executed command asked to save and they are at most one below 2^63, or otherwise when they are those of the old file |
| ServiceSessions.CustomLimitIsLost | main.c:392-413 | a successful custom limit with a cpu limit changes the table and leaves the limits file alone |
| ServiceSessions.RenameReloadsExactly | ops/rename_service.c:268-313 | after an effective rename the saved services load exactly when the name was fresh, and are refused otherwise |
| ServiceSessions.EmptyFilesAreSound | init/limit_init.c:46-47 | empty files, as they are created, are where such a history can start |
| ServiceSessions.ExecuteOn | main.c:190-455 | one command on both tables: its effect, whether the run ends, and whether the limits are to be saved |
| Program.RunProjects | main.c:176-648 | in a run over all registries each one goes through a run of its own commands, as far as they were reached |
| Program.RunIsTogether | main.c:176-648 | a whole run is what the three registries' own runs of their own commands amount to, up to the first command at which one of them ends |
| Program.RunDiesExactly | main.c:176-648 | a whole run dies, or writes behind an array, exactly when one registry's own run does at the first command where any of them ends |
| Program.StartExactly | main.c:95-131 | a start opens exactly when all four files load, with what they load to, and breaks exactly when envs or limits are written behind their array and every file before them loads |
| Program.DeadSessionChangesNothing | main.c:79-171 | a session in which some registry's own run dies first leaves all files as they were; nothing is promised exactly when the envs' run writes behind its array first |
| Program.SaveIsDurable | main.c:144-171 | the next start gives all four registries as the process leaves them, the old limits after a fatal save |
| Program.HistoryIsDurable | main.c:79-171 | after any sessions of any commands with fresh renames the files are defined exactly when none wrote behind an array, load to what the history gives without files, and never hold a second limit of the program's own making |
| Program.IntegrityIsKeptExactly | main.c:144-171 | a mixed session leaves limits that fit the services exactly when its own service commands, as far as reached, are settled |
| Program.RefusedFilesStay | main.c:96-131 | files of which one is refused stay as they are through all later sessions |
| Program.UsedRenameLocksOut | ops/rename_service.c:268-313 | after a rename to a used name no later session changes any file |
| Program.EnvCrashLosesJobs | env_man/remove_env.c:44-50 | a job added in a session that dies on its envs is not saved |
| Tables.Globals.LoadAll | main.c:95-131 | the four loads in order, up to the first that does not succeed |
| Tables.Globals.ExecuteOn | main.c:176-648 | one command on the four tables does what the abstract command does, and leaves the other tables alone |
| Tables.Globals.RunCommands | main.c:176-648 | the command loop on the tables is the abstract run |
| Tables.Globals.Save | main.c:144-171 | the saves of the four tables write the abstract files |
| Tables.RunProgram | main.c:79-171 | load, commands and saves on the four tables compute the abstract session |
| Catalog.AddJobMeaning | job_ops/craete_job.c:18-78 | an add succeeds exactly for a valid new name with a new path and creates that one map entry |
| Catalog.DropJobMeaning | job_ops/delete_job.c:8-52 | a removal succeeds exactly for a known name and removes that map entry |
| Catalog.EnvRenameMeaning | env_man/rename_env.c:6-22 | a bulk rename without collisions moves every entry of the old name, with its key and value, to the new one |
| Catalog.EnvRunIsMapRun | env_man/add_env.c:11-61 | a run reaches its end exactly when, on a map from (name, key) to the variable, it creates no entry in an emptied map or one of forty; then it is that run on the map |
| Catalog.AddMeaning | utils_ops/add_project.c:34-75 | an add creates one entry, cloned or not, exactly for a valid name and repository neither of which is taken, and dies exactly then without an array or with an exiting clone; any other add changes nothing |
| Catalog.StartMeaning | utils_ops/run_service.c:125 | a start stores the process id in the entry of the name, if there is one, and changes nothing else |
| Catalog.LimitAfterStart | res_man/cpu/cpu_limit.c:117-136 | a started service takes a limit; one whose process id is zero is not running and takes none |
| Catalog.CallMeaning | main.c:190-455 | which service commands end the run, and which ask for the limits to be saved, in terms of the maps |
| Catalog.LimitMeaning | utils_ops/create_limit.c:16-53 | a limit command replaces or creates the entry of a running service and touches no other, with the status reported for every case; otherwise nothing changes |
| Catalog.DeleteMeaning | ops/delete_service.c:179-263 | a delete removes the name from both maps and nothing else, and gives up an array exactly when the name was its map's only one; without the service, its array or its folder nothing changes |
| Catalog.RenameMeaning | ops/rename_service.c:281-308 | a fresh rename moves the service's entry and its limit's to the new name exactly when the name is valid, service and arrays are there, and folder and cgroup move; otherwise nothing changes |
| Files.TargetsGetSources | io_man/base.c:51-81 | after a list of copies each target holds its source if that was not empty, else what it held |
| Files.OthersKeepContent | io_man/base.c:51-81 | no other file changes content |
| Files.TimeShiftRestores | time_shift/apply_time_shift.c:238 | create, any change to live files, apply: content at creation, else older snapshot, else current content |
| Files.ProgramShiftRestores | time_shift/apply_time_shift.c:238 | the same of the program's own sixteen files: each one under `data` gets back what it held, through its namesake under `backup` |
| Files.CreatedExactly | io_man/base.c:51-81 | a list of copies creates its missing sources and the targets of those that are not empty, and no other file |
| Files.ApplyIsIdempotent | time_shift/apply_time_shift.c:238 | applying twice is applying once |
| Files.ProgramPathsAreDistinct | time_shift/config.h:3-35 | the thirty-two paths of the program are pairwise different |
| Files.FileSystem.CopyBackup | io_man/base.c:15-48 | resize and overwrite leave exactly the source bytes |
| Files.FileSystem.DoBackup | io_man/base.c:51-81 | an empty source copies nothing |
| Files.FileSystem.CreateTimeShift | time_shift/create_time_shift.c:6-14 | the sixteen copies in order |
| Files.FileSystem.ApplyTimeShift | time_shift/apply_time_shift.c:237-242 | the sixteen reverse copies in order |
| Recovery.HandlerRestores | io_man/jobs/apply_backup.c:74-106 | at every point of the save the handler gives back the old bytes, with what was read behind a full last page, and a free lock file |
| Recovery.LockAtEveryPoint | fini/save_jobs.c:74-89 | the lock file is taken from before the copy until after it, free at the end, and as it was before |
| Recovery.JobsFileAtEveryPoint | fini/save_jobs.c:49-85 | at every point the jobs file holds the new bytes as far as they are copied, then the old ones, then zero bytes up to the new length |
| Recovery.HandlerLeavesOthers | io_man/jobs/apply_backup.c:26-106 | the handler changes no file but jobs and lock, and no content at all without jobs or without text in the backup |
| Recovery.HandlerRestoresExactly | io_man/jobs/apply_backup.c:26-106 | the old bytes come back from every point exactly when they were not empty, held no NUL, and were not read on behind their mapping |
| Recovery.InterruptedSaveKeepsJobs | fini/save_jobs.c:49-89 | after an interrupted save of any list, the old nonempty job list is loaded exactly when what was read behind its backup completes no record |
| Recovery.CopyMapped | fini/save_jobs.c:81 | the files after every byte copied are those of the modelled points |
| Recovery.WriteData | fini/save_jobs.c:37-90 | from the backup on, the files after every change are those of the points, in order, up to the new bytes and a free lock file |
| FolderDeletion.FileTree.DeleteEntry | utils.c:47-80 | on success exactly the entry's subtree is gone, although the inner result is ignored and a failed open may go on to the removal |
| FolderDeletion.FileTree.DeleteBatch | utils.c:46-80 | on success exactly the listed children are gone |
| FolderDeletion.FileTree.DeleteInside | utils.c:38-87 | on reported success exactly the entries that no listing returned are left, so the directory is empty exactly when the listings returned all of them, as they have when they reached their end; a reliable system always succeeds |
| FolderDeletion.FileTree.DeleteFolder | utils.c:90-101 | success means the tree minus the folder's subtree; links are never followed; on a reliable system it succeeds exactly on a directory |
| FolderDeletion.EmptyDirectoryIsPruned | utils.c:57-64 | a directory that could be removed had been emptied, whatever emptying it reported |
| FolderDeletion.LeafIsPruned | utils.c:69-72 | unlinking a file or link removes its whole subtree, which is itself |
| Splice.CutString | ops/delete_service.c:20-90 | all three branches yield the text without the range, in bounds |
| Splice.GetValue | ops/delete_service.c:93-113 | the range as a C string, null for bad parameters |
| Splice.ReinsertExactly | ops/delete_service.c:20-113 | a value put back at the cut rebuilds the text exactly when it is the value taken |
| Script.PiecesAreLossless | mrn_interpreter/parser/parse.c:29-84 | joining the words with single spaces rebuilds the command up to one final space; no word holds a space |
| Script.PiecesOfConcatenation | mrn_interpreter/run/run.c:90-171 | splitting starts afresh behind a final separator |
| Script.PieceCount | mrn_interpreter/parser/parse.c:29-84 | one word for every space, and one for what follows the last |
| Script.FitsExactly | mrn_interpreter/parser/parse.c:40-56 | a command fits the argument array exactly with fewer than nineteen spaces, or ending in the nineteenth |
| Script.LongLineOverruns | mrn_interpreter/parser/parse.c:67-87 | a line of n words is executed exactly for n below twenty |
| Script.GetParse | mrn_interpreter/parser/parse.c:21-91 | the writes stay inside the argument array exactly below twenty words, and then it holds the words and a closing null |
| Script.TraceOfConcatenation | mrn_interpreter/run/run.c:90-171 | the trace of A+B is the trace of A and then that of B, for A ending in a newline |
| Script.RunOfConcatenation | mrn_interpreter/run/run.c:100-108 | what is performed composes: B runs exactly when every directory change of A worked and no line of A wrote out of bounds |
| Script.MeaningOf | mrn_interpreter/run/run.c:100-113 | a line that starts with `cd` changes to what is behind its third character, exactly `cd` copies badly, and any other executes its words or, from twenty on, overruns |
| Script.CdLine | mrn_interpreter/run/run.c:100-108 | a `cd` line in front of a script changes to its path, and the rest is performed exactly when that worked |
| Script.CommandLine | mrn_interpreter/run/run.c:109-134 | any other line of fewer than twenty words in front of a script executes words that glue back to it, and the rest is performed |
| Script.FatalLine | mrn_interpreter/parser/parse.c:67-87 | a bare `cd`, or a line of twenty words or more, ends the run whatever follows |
| Script.LastLine | mrn_interpreter/run/run.c:135-171 | a last line without newline means what it means with one |
| Script.RunMrnFile | mrn_interpreter/run/run.c:54-184 | the line loop parses and performs the trace up to the first failed directory change or bad write, and keeps the argument arrays last first |
| Arena.BytesRoundTrip | entry/mm/model.c:6-12 | n little-endian bytes store a number exactly below 256^n |
| Arena.BytesAre | entry/mm/model.c:6-13 | byte i of a stored number is its i-th digit to the base 256, the lowest first |
| Arena.HeaderLayout | entry/mm/model.c:6-14 | through both kinds of macros, the bytes behind a flag read as size and arena end, in that order, and the payload follows |
| Arena.WalkVisitsBlocks | entry/mm/model.c:42-55 | the walk by size plus header visits exactly the allocations in order |
| Arena.BlocksAreDisjoint | entry/mm/model.c:48-54 | blocks lie inside the tiled part and each ends before any later one begins |
| Arena.AllServedExactly | entry/mm/model.c:42-55 | a run of requests stays inside the arena exactly when the blocks with their headers fit into what is left |
| Arena.StickingFillsExactly | entry/mm/model.c:44-51 | behind a block that sticks out the arena counts as full exactly when the index has not wrapped around |
| Arena.Memory.BMalloc | entry/mm/model.c:39-55 | a fitting block extends the tiling, its header reads back through both kinds of macros, no other byte changes; a block that sticks out gets its header and moves the index too |
| Arena.Memory.BFree | entry/mm/model.c:78-80 | exactly the block's flag byte changes and the layout stays |
| Arena.Memory.WritePayload | entry/mm/model.c:39-55 | a payload write changes no header and no other block |
| Arena.Memory.WalkFindsAllocations | entry/mm/model.c:42-55 | at every moment the walk over the bytes finds the allocations made so far |
| Validators.IsValidJobName | exceptions/jobs/job_exceptions.c:37-44 | accepts exactly up to 20 characters without the four delimiters |
| Validators.IsValidJobPath | exceptions/jobs/job_exceptions.c:47-54 | accepts exactly up to 100 characters without the four delimiters |
| Validators.IsValidServiceText | exceptions/services/services_exceptions.c:51-75 | accepts exactly bounded texts without space, `^` and `#` |
| Services.ValidatorsMatchFormat | exceptions/services/services_exceptions.c:51-75 | service texts are valid exactly within their length, without spaces and without the file's first two delimiters |
| Validators.IsValidEnvText | exceptions/env/env_exceptions.c:31-56 | accepts exactly texts without backquote and `^` |

## Left out

- Services.LoadServices: a null service array pointer, which no caller passes, is not modelled.
- Script.RunMrnFile: what happens after a write past the argument array is not modelled; neither is the copy of two bytes behind a file whose size is a multiple of the page size.
- Arena.Memory.BMalloc: the writes of a header that itself lies outside the arena are not modelled. The new-arena path and `bRealloc` are unfinished in the source.
- Limits.LoadLimit: what a write outside the array destroys is not modelled; the load ends there. The same holds for `Envs.AppendEnv`.
- ServiceSessions.SessionIsDurable: starts from files whose services are within the validators' bounds, as every file that the program wrote is.
- Jobs.LoadJobs: `loadJobs` and `loadJobsDaemon` are one method, since they differ only in their counters and in how a rejection ends.
- Recovery.HandlerRestores: reading on behind a mapping is assumed not to fault; what happens after the handler returns is not modelled.
- Files.FileSystem.CopyAll: the chain of sixteen calls is a loop over the list of pairs; a copy never reports failure.
- Mutual exclusion through the lock file: checking and taking it are separate steps and the code does not provide it.
- The scanners' `int` index: files of 2 GiB and more are not modelled.
- cgroup, rlimit, /proc, pipes, fork and exec, git, signals other than the restore handler, threads.
- Program.AfterSession: `time-shift apply` as a command of a session, which switches off the save of services and jobs (main.c:591) while envs are still saved over the file it put back.
- The folder and cgroup renames behind the first part of `applyTimeShift`, and the rest of argument dispatch, help and listing.
- Unit parsing and formatting over doubles, and the core counts sliced at fixed offsets.
- `delete_service_force` and `getSeparateValues`, which nothing calls; only their splice and value helpers are modelled.
- Failures of malloc and of opening or mapping files.
