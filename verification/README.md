# Migration engine and lockfile derivation: a verified model

The command line of the GraphQL engine keeps two ordered sets of versions in step: the migrations in the project
directory and the ones recorded on the server. This project models how it does that and proves what the commands
achieve, on every schedule and from every starting point. It also covers the script that derives a standalone npm
lockfile from the lockfile of a workspace root, the script that merges SQL statements of a migration, and the numbering
and indenting of the command documentation.

`dafny verify dfyconfig.toml` checks everything.

## How it is organised

| file | what it is about |
|---|---|
| `Ordering.dfy` | finite sets of versions: neighbours, sorted enumerations, initial segments |
| `Readers.dfy` | the reader loops of `migrate.go`, one iteration at a time, and the complete plan each of them follows |
| `Protocol.dfy` | the runner, and reader and runner as a state machine around a channel of any capacity, with a live or a snapshot view of the recorded versions, failures and graceful stop |
| `Laws.dfy`, `Outcomes.dfy` | what a whole job does to the recorded set and to the log of executed SQL |
| `History.dfy`, `Moments.dfy` | sequences of commands, going forth and back, and what holds at every moment of every run |
| `Drivers.dfy`, `Status.dfy`, `Engine.dfy`, `DryRun.dfy` | the classes with their fields and loops, tied to the functions above |
| `Squash.dfy`, `Pipeline.dfy`, `PipelineFailure.dfy`, `SquashMeaning.dfy`, `SquashedProjects.dfy`, `SquashedRuns.dfy`, `SquashCommand.dfy` | squashing: the two readers, the concurrent pipeline without and with an error, its result, the meaning of the squashed project, what Up and Down do on it, and the command around it |
| `Lockfile.dfy`, `Dependencies.dfy`, `Relocation.dfy`, `Conflicts.dfy`, `ConflictExample.dfy` | the lockfile: search, collection, relocation and when it keeps the meaning, which conflicts of names break it, and a lockfile that is broken |
| `Coalesce.dfy`, `Sidebar.dfy` | merging SQL statements; sidebar positions and indentation |

A body of SQL is a string and a project is two maps from versions to bodies (`Source`, with the versions that have
metadata files only). The server is its recorded versions and the log of everything it has executed; whether it accepts
a statement may depend on all of that (`accepts`). What SQL does to a schema is a function given from outside (`act`).
Versions are unbounded numbers with the conversions to `int64` and `uint64` written out, and the theorems require them
to be below 2^63 (`Fits`); `Readers.OversizedVersionRepeats` and `Readers.UpEndsIffFits` say what happens beyond.

Because a reader only ever asks about versions the runner has not touched yet, every interleaving has the result of
reading everything first and running it afterwards (`Protocol.ScheduleIndependence`). The methods of `Engine.Migrate`
therefore read a whole job and then run it.

## Where the code does something else than it says

* A migration without a body is neither executed nor recorded, although `cli/migrate/migration.go:71-77` says that it is
  applied (`Laws.RunUps`, `Laws.RunDowns` count only versions with a file of the direction). It can leave a gap among the
  recorded versions (`Moments.UpKeepsSegmentIff`, `Moments.DownKeepsSegmentIff`).
* Going to a version that is not on the way overshoots and reports an error. Upwards, with something pending up to the
  target and up SQL for all that is pending, everything is applied; downwards, with down SQL for all versions but the
  lowest, everything but the lowest is removed, also below the target (`Outcomes.GotoUpOvershoots`,
  `Outcomes.GotoDownOvershoots`; for any files: `Outcomes.GotoUp`, `Outcomes.GotoDown`; when exactly the target is
  reached: `Outcomes.GotoUpReaches`, `Outcomes.GotoDownReaches`).
* Squashing applied versions of which some, but not all, have a down file makes a rollback possible that was not: Down on
  the original stops at the first version without a down file, while Down on the squashed project runs the down SQL there
  is, forgets the whole range and goes on (`SquashedRuns.SquashThenDown`, `SquashedRuns.AllOrNothing`; two versions for
  which this happens: `SquashedRuns.PartialRollback`). `cli/migrate/migrate.go:937-949` only warns about the missing file.
* Squashing a range with a version that has no up file reports the error only if at most ten bodies with SQL come before
  it; with more of them the command never returns, because nobody reads what the compiler flushes
  (`PipelineFailure.ReturnsIffFits`, `SquashMeaning.SquashBlocksIff`).
* Squashing with equal bounds passes the checks but never succeeds (`SquashCommand.EqualBoundsNeverSucceed`).
* Squashing a range that starts at version 0 leaves version 0 in the project, also when its SQL is in the new migration
  (`SquashCommand.VersionZeroStays`), so Up then runs that SQL twice (`SquashedRuns.ZeroRunsTwice`); a range of
  version 0 alone panics. A dry run leaves version 0 out when it comes first (`DryRun.DryRunFaithful`).
* `Up` and `Down` keep the lock when the database is dirty (`Engine.Migrate.Up`, `Engine.Migrate.Down`).
* Appending a version that is already first in the database index inserts it again (`Drivers.Index.Append`).
* A link in the lockfile whose target is missing counts as a package without dependencies, and nothing fails
  (`Dependencies.LinkIsFollowed`); the check after the copy (`dc-agents/scripts/derive-lockfile.ts:168-169`) never fires.
* The derived lockfile does not always mean what the original one means. `Relocation.FaithfulIff` says exactly when it
  does, for every lockfile, by the rule the script itself searches by: the nearest folder above the place of a package.
  For what a link stands for, Node.js would start from the folder the link points to instead. The meaning breaks when
  packages that differ are moved to one place, as a direct dependency of the workspace and its namesake at the root are;
  when a package that is pushed aside has a package nested below it or depends on another pushed one
  (`Conflicts.OnTheWayIff`; `ConflictExample.ChainedConflictBreaks` is such a lockfile); and when something in the folder
  it is pushed to shadows what it depends on (`Conflicts.PushedInReachIff`). These are all the causes if conflicting
  direct dependencies have no dependencies themselves (`Conflicts.FaithfulIffHarmless`).
* A statement that ends with neither a semicolon nor a newline loses its last character
  (`Coalescing.NormaliseKeepsIff`).

## Model

| member | source | states |
|---|---|---|
| Readers.IterationLaw | cli/migrate/migrate.go:1051-1278 | whatever loop runs and wherever it is, one iteration over a live recorded set (changed only for versions the reader is past) sends exactly the next part of the plan made from the initial set, keeps the reader valid and lowers its rank |
| Readers.SendsPlan | cli/migrate/migrate.go:1051-1278 | run to its end, a reader sends exactly the closed-form plan: ascending missing versions up, descending applied versions down, limits, sentinel and error messages included |
| Readers.SendsOnce | cli/migrate/migrate.go:1051-1278 | no version is sent twice, and none the reader has already been past |
| Readers.UpEndsIffFits | cli/migrate/migrate.go:1079-1182 | for all projects with versions below 2^64, something pending and an up file for all of it: the loop of Up comes to an end if and only if every version of the project is below 2^63 |
| Readers.OversizedVersionRepeats | cli/migrate/migrate.go:1079-1182 | a version of 2^64-1 becomes -1 in the loop variable, so the walk starts over and sends it again |
| Runner.EffectTouches | cli/migrate/migrate.go:1286-1325 | running messages leaves every version they do not name as it was, dirty flag included |
| Runner.EffectFlags | cli/migrate/migrate.go:1310-1320 | a version is dirty after some messages if and only if it was dirty before and no message with SQL names it |
| Runner.RunsToFirstFailure | cli/migrate/migrate.go:1286-1325 | whatever the server accepts: exactly the messages before the first error, or the first SQL that is rejected after what came before, are carried out, and that error or failure is returned |
| Protocol.RunKeeps | cli/migrate/migrate.go:671-710 | on every run, for any channel capacity, live or snapshot view: what was sent and what is still planned make up the plan, and the server is what the taken messages made of it, the last possibly in part |
| Protocol.Progress | cli/migrate/migrate.go:671-710 | no deadlock: until the run has ended, some process can move without a signal or a failure of the store |
| Protocol.RunsAreFinite | cli/migrate/migrate.go:671-710 | every run ends; its length is bounded by a measure of the start |
| Protocol.ScheduleIndependence | cli/migrate/migrate.go:1051-1325 | a run without stop or store failure ends with the same server and the same error as reading everything first and running it afterwards, whatever the schedule |
| Protocol.EveryMoment | cli/migrate/migrate.go:1286-1325 | at every moment of every run, stopped, failed or not, the server is the effect of a prefix of the plan, the next message at most partly carried out |
| Protocol.ReaderLooksUp | cli/migrate/migrate.go:1079-1278 | each step of a reader asks the recorded versions as they are now, on a live view, or as they were scanned |
| Protocol.NeverDirtied | cli/migrate/migrate.go:1310-1320 | in every state of every run: what is dirty was dirty at the start; so every version newly recorded is not |
| Protocol.UntouchedAtEveryMoment | cli/migrate/migrate.go:1286-1325 | in every state of every run a version the plan does not name keeps its place in the store and its flag |
| Protocol.StoreFailureEnds | cli/migrate/migrate.go:1310-1320 | when the store fails the run ends with the server as it is, and the failure is reported for the version of the message taken last |
| Protocol.StopIsObeyed | cli/migrate/migrate.go:1286-1300 | after a stop the runner finishes the message in hand at most: it takes at most one more message, which ends the run, executes nothing else and touches no other version |
| Protocol.ReaderObeys | cli/migrate/migrate.go:1079-1090 | after a stop a reader in its loop sends nothing more |
| Laws.UpsShape | cli/migrate/migrate.go:1079-1182 | an upward plan is the migrations before the first version without an up file, then the error for it, or all of them and the tail |
| Laws.DownsShape | cli/migrate/migrate.go:1227-1278 | a downward plan is the migrations before the first version without a down file, then the error for it, or all of them and the tail |
| Laws.MessagesAre | cli/migrate/migrate.go:1079-1278 | the messages field by field: the version, for an up migration the version itself as the target, for a down migration the greatest smaller recorded version or -1, and the SQL of the direction if there is any |
| Laws.UpEffect | cli/migrate/migrate.go:1300-1320 | running up messages records exactly the versions with an up body, none of them dirty, leaves the flags of the others alone, and logs the SQL in order, or nothing when execution is skipped |
| Laws.DownEffect | cli/migrate/migrate.go:1300-1320 | running down messages forgets exactly the versions with a down body and logs their SQL in order, or nothing when execution is skipped |
| Laws.RunUps | cli/migrate/migrate.go:1286-1325 | an upward job on a willing server: recorded versions with their flags, log and error, cut off at the first version without an up file |
| Laws.RunDowns | cli/migrate/migrate.go:1286-1325 | a downward job on a willing server: recorded versions with their flags, log and error, cut off at the first version without a down file |
| Outcomes.PlanOfUp | cli/migrate/migrate.go:1051-1182 | the plan of readUp with or without a limit: the least missing versions, and the error it ends with |
| Outcomes.StepsUp | cli/migrate/migrate.go:671-710 | Steps(n) and Up: nothing missing changes nothing and says so; with fewer than n missing all are applied and the shortage reported; otherwise exactly the n least missing ones, recorded as not dirty, stopping before a version without an up file |
| Outcomes.StepsDown | cli/migrate/migrate.go:671-710 | Steps(-n) and Down: the n greatest applied versions are removed, or all of them and the shortage is reported, stopping before a version without a down file |
| Outcomes.GotoUp | cli/migrate/migrate.go:1727-1832 | recorded set, log and error of going up, for any project: nothing missing up to the target changes nothing; otherwise what has SQL before the first version without an up file is recorded, up to a target of the project or, past any other target, to the end with an error |
| Outcomes.GotoUpReaches | cli/migrate/migrate.go:1727-1832 | going up ends without error at exactly the versions up to the target if and only if the target is in the project, something is missing up to it, and all of that has up SQL |
| Outcomes.GotoUpOvershoots | cli/migrate/migrate.go:1727-1832 | a target that is not in the project is overshot: with something pending up to it, and up SQL for all that is pending, everything is recorded and an error reported |
| Outcomes.GotoDown | cli/migrate/migrate.go:1839-1923 | recorded set, log and error of going down, for any project and recorded set: what has SQL before the first version without a down file is removed, down to the target or, if the walk cannot stop there, to the lowest version with an error |
| Outcomes.GotoDownReaches | cli/migrate/migrate.go:1839-1923 | going down ends without error at exactly the recorded versions up to the target if and only if the target is recorded, or is -1 with nothing in the project below the lowest recorded version, and every version above it has down SQL |
| Outcomes.GotoDownOvershoots | cli/migrate/migrate.go:1839-1923 | when it cannot stop at the target, every recorded version but the lowest has down SQL, and some version of the project is recorded above the target, only the lowest version stays, and an error is reported |
| Outcomes.OneUp | cli/migrate/migrate.go:958-1044 | a single version up: recorded exactly if it was not, has an up file, and that has SQL; otherwise the error |
| Outcomes.OneDown | cli/migrate/migrate.go:958-1044 | a single version down: removed exactly if it was recorded, has a down file, and that has SQL, whatever is recorded above it; otherwise the error |
| History.GotoCanonical | cli/migrate/migrate.go:1674-1720 | in a project with up and down SQL throughout, from an initial segment of it, GotoVersion leaves exactly the versions up to its target |
| History.GotoHasNoMemory | cli/migrate/migrate.go:1674-1720 | after any sequence of such commands, in such a project, only the last target matters |
| History.StepsUpTakesLeast | cli/migrate/migrate.go:671-710 | Steps(k) succeeds and records the k least missing versions if and only if there are that many and they have up SQL; then it executes them in ascending order |
| History.StepsDownTakesGreatest | cli/migrate/migrate.go:671-710 | Steps(-k) succeeds and removes the k greatest recorded versions if and only if there are that many and they have down SQL; then it takes them back in descending order |
| History.StepsAndBack | cli/migrate/migrate.go:671-710 | after Steps(k) over versions with up SQL, Steps(-k) restores the recorded set if and only if every version added has down SQL and lies above everything recorded before, and then without error |
| History.UpAndDownAgain | cli/migrate/migrate.go:1051-1325 | if every down undoes its up, ups in ascending order followed by downs in descending order leave the schema as it was |
| History.StepsAndBackSchema | cli/migrate/migrate.go:671-710 | in that case, if the down SQL of what was added undoes its up SQL, both succeed and the schema is restored as well |
| Moments.EveryUpMoment | cli/migrate/migrate.go:1286-1325 | at every moment of an upward run, whatever files there are, nothing beyond the first version without an up file has been touched, the versions recorded, none of them dirty, and the SQL executed come from prefixes of the same ascending sequence of missing versions, the execution ahead by at most one; with execution skipped the log never changes |
| Moments.EveryDownMoment | cli/migrate/migrate.go:1286-1325 | at every moment of a downward run the same holds for the descending sequence of recorded versions and what has been removed; the others keep their flags, save the one in flight, which is not dirty any more |
| Moments.SegmentKept | cli/migrate/migrate.go:671-796 | "the recorded versions are an initial segment of the project" holds in every state of every run of Up, Down, Steps and GotoVersion, cut short or not, whatever files are lacking, in a project in which no migration is metadata only |
| Moments.SessionKeepsSegment | cli/migrate/migrate.go:671-796 | ... and in every state of any sequence of such runs, each starting from what the one before left |
| Moments.SessionStaysClean | cli/migrate/migrate.go:671-796 | in every state of a session what is dirty was dirty when the session began |
| Moments.UpKeepsSegmentIff | cli/migrate/migrate.go:1286-1325 | in any project Up leaves an initial segment if and only if, of the versions it passes, none without SQL comes before one with SQL |
| Moments.DownKeepsSegmentIff | cli/migrate/migrate.go:1286-1325 | and so does Down |
| Drivers.Search | cli/migrate/status.go:80-83 | the bisection finds the first index whose version is not smaller |
| Drivers.FindPos | cli/migrate/source/migration.go:181-189 | the position of a version, or -1 exactly if it is not in the index |
| Drivers.PrevByIndex | cli/migrate/source/migration.go:109-115 | the predecessor by position is the greatest smaller version of the set |
| Drivers.NextByIndex | cli/migrate/source/migration.go:117-123 | the successor by position is the least greater version of the set |
| Drivers.InsertSortedStrict | cli/migrate/database/migration.go:23-33 | an appended index stays strictly ascending exactly if the version was not in it |
| Drivers.InsertSortedElems | cli/migrate/database/migration.go:23-33 | appending adds the version and loses none |
| Drivers.Index.constructor | cli/migrate/source/migration.go:76-82 | the index of a set of versions lists them in ascending order |
| Drivers.Index.Append | cli/migrate/database/migration.go:23-33 | the new index; it stays strict exactly if the version is not already its first element |
| Drivers.Index.First | cli/migrate/source/migration.go:84-89 | the least version |
| Drivers.Index.Last | cli/migrate/database/migration.go:42-48 | the greatest version |
| Drivers.Index.Prev | cli/migrate/database/migration.go:50-56 | nothing for an unknown version or the least one, otherwise the greatest smaller version |
| Drivers.Index.Next | cli/migrate/database/migration.go:58-64 | nothing for an unknown version or the greatest one, otherwise the least greater version |
| Drivers.HasuraDB.Scan | cli/migrate/database/hasuradb/hasuradb.go:198-206 | a new index that agrees with the recorded versions |
| Drivers.HasuraDB.Version | cli/migrate/database/hasuradb/hasuradb.go:433-440 | -1 and not dirty for an empty scan, otherwise the greatest scanned version and the flag stored under it |
| Statuses.Status.Append | cli/migrate/status.go:35-49 | a new record is filed; of a record for a known version only the applied flag is taken over |
| Statuses.Status.BuildIndex | cli/migrate/status.go:51-57 | the index is the ascending enumeration of all known versions |
| StatusCalculation.NewMigrationStatus | cli/migrate/migrate.go:350-371 | the record on file, changed in place, or a new one |
| StatusCalculation.ReadStatusFromSource | cli/migrate/migrate.go:292-322 | first, last and the loop between them note exactly the versions of the project |
| StatusCalculation.ReadStatusFromDatabase | cli/migrate/migrate.go:324-348 | ... and exactly the recorded versions with their dirty flags, keeping what is present |
| StatusCalculation.Calculate | cli/migrate/migrate.go:278-290 | afterwards there is a record for exactly the versions of the project and of the scan, present, applied and dirty as these say, and the index lists them in ascending order |
| StatusCalculation.CountUnapplied | cli/migrate/migrate.go:1059-1070 | the number of present versions that are not applied, all of them or up to a bound |
| StatusCalculation.CountApplied | cli/migrate/migrate.go:1849-1861 | the number of present and applied versions in the range to be removed |
| DryRun.CollectDryRun | cli/migrate/migrate.go:1327-1351 | the first error, or the list of versions without immediate repetitions |
| DryRun.DryRunFaithful | cli/migrate/migrate.go:1327-1351 | a dry run reports the error a real run on a willing server reports; without one it lists exactly what the real run executes, if and only if the first version executed is not 0 |
| Engine.Migrate.constructor | cli/migrate/migrate.go:180-229 | a new object agrees with the project and with the scanned server |
| Engine.Migrate.CalculateStatus | cli/migrate/migrate.go:278-290 | the status agrees with both drivers |
| Engine.Migrate.ReScan | cli/migrate/migrate.go:241-260 | the index and the status agree with what is recorded now |
| Engine.Migrate.Stop | cli/migrate/migrate.go:1573-1586 | a stop, once seen, stays seen |
| Engine.Migrate.ReadUp | cli/migrate/migrate.go:1051-1182 | the loop sends the plan of an upward job |
| Engine.Migrate.ReadDown | cli/migrate/migrate.go:1189-1278 | the loop sends the plan of a downward job |
| Engine.Migrate.ReadUpFromVersion | cli/migrate/migrate.go:1727-1832 | the loop sends the plan of going up to a version |
| Engine.Migrate.ReadDownFromVersion | cli/migrate/migrate.go:1839-1923 | the loop sends the plan of going down to a version |
| Engine.Migrate.Read | cli/migrate/migrate.go:958-1044 | what is sent for a single version and direction |
| Engine.Migrate.RunMigrations | cli/migrate/migrate.go:1286-1325 | the runner loop leaves the server as running the messages one by one does, until the first error, recording every version as not dirty; under a stop it does nothing |
| Engine.Migrate.RunDryRun | cli/migrate/migrate.go:1327-1351 | nothing but the printed list changes, and that only without an error or a stop before the last message |
| Engine.Migrate.Lock | cli/migrate/migrate.go:1590-1640 | the lock is taken exactly if neither the object nor the driver is locked, otherwise nothing changes |
| Engine.Migrate.Unlock | cli/migrate/migrate.go:1645-1657 | both are unlocked |
| Engine.Migrate.Steps | cli/migrate/migrate.go:671-710 | refusals change nothing; otherwise the outcome of the job for n up or -n down, and for the least signed number, which is its own negative, of that limit |
| Engine.Migrate.Up | cli/migrate/migrate.go:714-753 | refused without migration mode or lock, changing nothing; if the greatest scanned version is dirty that is the error, the server stays and the lock is kept; otherwise the outcome of an unlimited upward job |
| Engine.Migrate.Down | cli/migrate/migrate.go:757-796 | refused without migration mode or lock, changing nothing; if the greatest scanned version is dirty that is the error, the server stays and the lock is kept; otherwise the outcome of an unlimited downward job |
| Engine.Migrate.GotoVersion | cli/migrate/migrate.go:1674-1720 | refused without migration mode; then, if the greatest scanned version is dirty, that is the error and nothing changes; then refused without the lock; otherwise the outcome of going up or down from the greatest scanned version |
| Engine.Migrate.MigrateOne | cli/migrate/migrate.go:598-627 | the outcome for one version and direction |
| Engine.Migrate.RemoveVersions | cli/migrate/migrate.go:426-451 | exactly the given versions are forgotten, and the lock is free afterwards; a refusal changes nothing |
| Engine.DoneMeans | cli/migrate/migrate.go:671-796 | a command that was not refused: the lock is free; a pending stop or a dry run leaves the server alone; a dry run returns the first error of its reader or prints its list; any other run is the run of the plan |
| Engine.UpRecordsAll | cli/migrate/migrate.go:714-753 | Up on a willing server records all that is pending if it has up SQL, not dirty, and leaves the other flags alone |
| Engine.DownForgetsAll | cli/migrate/migrate.go:757-796 | Down on a willing server forgets everything if all of it has down SQL |
| Engine.StepsRecordLeast | cli/migrate/migrate.go:671-710 | Steps(n) records exactly the n least pending versions if they have up SQL |
| Engine.StepsForgetGreatest | cli/migrate/migrate.go:671-710 | Steps(-n) forgets exactly the n greatest recorded versions if they have down SQL |
| SquashReaders.SquashUp | cli/migrate/migrate.go:798-887 | the loop sends the up migrations from the first version to the target or to the end, nothing for equal bounds |
| SquashReaders.SquashDown | cli/migrate/migrate.go:889-952 | the loop sends the down migrations from the end of the range to its start |
| Pipeline.RunKeeps | cli/migrate/migrate.go:1353-1428 | on every schedule of readers, compilers and collectors nothing is lost, duplicated or reordered |
| Pipeline.NoDeadlock | cli/migrate/migrate.go:475-594 | until all collectors are done some process can move, for any channel capacity |
| Pipeline.RunsAreFinite | cli/migrate/migrate.go:475-594 | every run ends |
| Pipeline.OneResult | cli/migrate/migrate.go:475-594 | every complete run returns the same versions, the same up text and the same down text |
| PipelineFailure.ReturnsIffFits | cli/migrate/migrate.go:475-594 | when the up reader ends with an error: in every run that cannot go on the error has been received, and both collectors of the up direction have ended if and only if the channel can hold all bodies read before the error |
| PipelineFailure.FailRunsAreFinite | cli/migrate/migrate.go:475-594 | every run with an error comes to a point where it cannot go on |
| SquashMeaning.SquashBlocksIff | cli/migrate/migrate.go:475-594 | so Squash returns the error of the up reader, or blocks for good, exactly as the result says, for the capacity of ten |
| SquashMeaning.SquashReportsMissing | cli/migrate/migrate.go:798-887 | a range with a version without an up file: the first one is the error if at most ten versions with up SQL come before it in the range, otherwise it blocks |
| SquashMeaning.SquashExact | cli/migrate/migrate.go:475-594 | the versions are the range in ascending order without 0, the up text the newline-prefixed up files in that order, the down text the newline-prefixed down files in reverse |
| SquashMeaning.EqualBoundsReportNothing | cli/migrate/migrate.go:808-810 | equal bounds give no versions and no up text |
| SquashMeaning.EqualBoundsDown | cli/migrate/migrate.go:889-952 | equal bounds give the down text of the one version |
| SquashMeaning.TextActs | cli/migrate/database/hasuradb/squash.go:34-47 | the joined text does what its parts do one after the other, if no part affects what follows on a new line |
| SquashMeaning.SquashedDownUndoesUp | cli/migrate/migrate.go:475-594 | if every down undoes its up, the squashed down undoes the squashed up |
| SquashedProjects.SquashGivesAfter | cli/commands/migrate_squash.go:121-150 | what the command builds from the result is the project the following members compare with the original |
| SquashedProjects.AfterVersions | cli/commands/migrate_squash.go:121-150 | the range is replaced by its last version, everything else keeps its files |
| SquashedProjects.PendingSqlSame | cli/commands/migrate_squash.go:121-150 | all pending up SQL of the squashed project does to a schema what that of the original project does |
| SquashedRuns.SquashThenUp | cli/commands/migrate_squash.go:121-171 | with the range pending, whatever other files are lacking: Up on the squashed project reports what Up on the original reports, makes the same schema, and records the same versions with the last of the range in place of the range |
| SquashedProjects.SquashKeepsPending | cli/commands/migrate_squash.go:157-169 | with the range applied, of it only the last version stays recorded, nothing of it is pending, and the same versions are pending as before |
| SquashedProjects.RollbackSqlSame | cli/commands/migrate_squash.go:157-169 | with the range applied, all down SQL of the recorded versions does the same before and after, whatever down files are lacking |
| SquashedRuns.SquashThenDown | cli/commands/migrate_squash.go:157-169 | with the range applied, whatever files are lacking: Down on the squashed project reports what Down on the original reports if and only if it does not get to the range, or the whole range can be taken back and has some down SQL, or nothing of it has down SQL and its last version has no down file; then the schema ends up the same, and the same versions stay recorded outside the range; and the last version of the range stays recorded exactly if Down does not get to it or nothing of the range has down SQL |
| SquashedRuns.AllOrNothing | cli/migrate/migrate.go:889-952 | with no metadata-only down migration in the range, and down files above it, that is the case if and only if all of the range or nothing of it has down SQL |
| SquashedRuns.PartialRollback | cli/migrate/migrate.go:889-952 | two applied versions of which only the earlier one has a down file: Down runs nothing and reports the missing file; after the squash it takes back the earlier one and forgets both without an error |
| SquashedProjects.ZeroSql | cli/commands/migrate_squash.go:121-150 | the pending SQL of a project squashed from version 0 does what the SQL of version 0 followed by all that of the original does |
| SquashedRuns.ZeroRunsTwice | cli/commands/migrate_squash.go:121-171 | so Up on it runs the SQL of version 0 twice, and then whatever Up on the original runs, with the same error |
| SquashCommand.FindIndices | cli/commands/migrate_squash.go:186-194 | the positions of both versions |
| SquashCommand.CompareFrom | cli/commands/migrate_squash.go:195-203 | the first position out of sync with the start, if there is one |
| SquashCommand.ValidateMigrations | cli/commands/migrate_squash.go:174-204 | no mismatch exactly if everything known after the start up to the end is in the project and applied like the start; otherwise the first version for which this fails |
| SquashCommand.Check | cli/commands/migrate_squash.go:96-119 | the checks pass exactly if both ends are known, in order and in sync, and otherwise say which of these fails first, and where; the new migration gets the end of the range or the last known version |
| SquashCommand.SquashFiles | cli/commands/migrate_squash.go:121-150 | the report and the new project, with the failures for an error, an empty text and an empty list of versions, or that it never returns |
| SquashCommand.ForgetSquashed | cli/commands/migrate_squash.go:157-169 | of the squashed versions the server forgets all but the last, and nothing when the deletion is not asked for, there is no new project or the lock is taken |
| SquashCommand.Run | cli/commands/migrate_squash.go:87-172 | the whole command: the report, and on the server all squashed versions but the last are forgotten if there is a new project, the deletion is asked for and the lock is free, otherwise nothing |
| SquashCommand.AnswersAre | cli/commands/migrate_squash.go:87-119 | the report spelled out: unknown start, wrong order, unknown end, the first version out of sync, no migration mode, or the outcome of the squash up to the end asked for or the last known version |
| SquashCommand.NewVersionsAscend | cli/commands/migrate_squash.go:121-130 | the squashed versions are in ascending order, so the last of them is the greatest |
| SquashCommand.MissingFileReported | cli/commands/migrate_squash.go:121-124 | without an up file in the range there is no new project: the first such version is reported, or the command blocks |
| SquashCommand.StoppedWritesNothing | cli/migrate/migrate.go:798-952 | with a stop pending there is nothing to write |
| SquashCommand.AcceptedRange | cli/commands/migrate_squash.go:174-204 | the checks imply that the range is applied as a whole or not at all |
| SquashCommand.CommandGivesAfter | cli/commands/migrate_squash.go:87-172 | on a range with up SQL the command ends with exactly the project and the recorded set of the theorems on meaning |
| SquashCommand.EqualBoundsNeverSucceed | cli/commands/migrate_squash.go:121-150 | with equal bounds there is never a new project: the command panics if the version has down SQL, and has nothing to write otherwise |
| SquashCommand.VersionZeroStays | cli/commands/migrate_squash.go:121-150 | a range that starts at version 0 panics if that is all of it, and otherwise gives a project in which the range without 0 is replaced by one migration with the SQL of all of it |
| Lockfiles.LocateIsNearest | dc-agents/scripts/derive-lockfile.ts:115-141 | what is found is the nearest package on the way up, then at the root; nothing is found only if it is in none of these places |
| Lockfiles.NearestIsLocated | dc-agents/scripts/derive-lockfile.ts:115-141 | the nearest package is found |
| Lockfiles.KeyInjective | dc-agents/scripts/derive-lockfile.ts:96-104 | different places have different keys |
| Lockfiles.KeysAre | dc-agents/scripts/derive-lockfile.ts:96-104 | the keys: nothing for the root, its folder for a workspace, and node_modules and the name behind the key of the place above |
| Dependencies.ReachableIsCollected | dc-agents/scripts/derive-lockfile.ts:146-191 | every package at the end of a chain of dependencies is collected |
| Dependencies.CollectedIsReachable | dc-agents/scripts/derive-lockfile.ts:146-191 | every collected package is at the end of such a chain |
| Dependencies.ResultIsClosed | dc-agents/scripts/derive-lockfile.ts:146-191 | everything a collected package wants is collected where the search finds it, unless it is an optional peer that is nowhere |
| Dependencies.FailureHasCause | dc-agents/scripts/derive-lockfile.ts:156-170 | a failure names a reachable package that needs something nobody provides, or a link to nowhere, or a chain as long as the stack |
| Dependencies.AcyclicTerminates | dc-agents/scripts/derive-lockfile.ts:146-191 | without cycles the recursion is never deeper than the lockfile has entries |
| Dependencies.CyclicNeverReturns | dc-agents/scripts/derive-lockfile.ts:146-191 | with a cycle there is no result, however deep the stack |
| Dependencies.LinkIsFollowed | dc-agents/scripts/derive-lockfile.ts:163-182 | a link with a target never fails at the link: its entry is the target without its name, or the empty package if the target is not in the lockfile |
| Dependencies.EntryIs | dc-agents/scripts/derive-lockfile.ts:163-189 | an entry field by field: name, dependant and place, and the package found, the target of a link without its name, or an empty package |
| Dependencies.WantsInOrder | dc-agents/scripts/derive-lockfile.ts:147-155 | what a package wants, one after the other: dependencies, development dependencies, peers, of which those marked as optional may be missing |
| Dependencies.WantsAre | dc-agents/scripts/derive-lockfile.ts:147-155 | a name must be found exactly if it is a dependency, a development dependency or a peer that is not optional, and may be missing exactly if it is an optional peer |
| Dependencies.DemandsAreMet | dc-agents/scripts/derive-lockfile.ts:146-191 | every such name of the start and of every package reached is collected where the search finds it, and if it is nowhere, or a link without a target path, there is no result; optional peers are collected if found |
| Dependencies.OnlyDemandsAreMet | dc-agents/scripts/derive-lockfile.ts:146-191 | nothing else is collected: every entry is named by the start or a collected package and was found by the search from there |
| Dependencies.CollectedInOrder | dc-agents/scripts/derive-lockfile.ts:156-190 | the order of the result: for each wanted name in turn the package found, directly followed by all that is collected below it |
| Relocation.DerivedOf | dc-agents/scripts/derive-lockfile.ts:258-262 | the new lockfile has an entry exactly where a dependency was moved to, with the package of one moved there |
| Relocation.NewFolderIs | dc-agents/scripts/derive-lockfile.ts:197-242 | the new place of a package, case by case |
| Relocation.DerivedExactly | dc-agents/scripts/derive-lockfile.ts:251-278 | deriveLockfile as a function: each failure, the header with lockfile version 3, the workspace under the empty key, an entry exactly where a collected package was moved to, and of those moved to one place the last |
| Relocation.DerivedHasDemands | dc-agents/scripts/derive-lockfile.ts:251-278 | every dependency, development dependency and required peer of the workspace and of every package reached has an entry in the new lockfile |
| Relocation.InReachResolves | dc-agents/scripts/derive-lockfile.ts:115-141 | what lies on the way up with nothing of its name nearer is found there, with the package it had |
| Relocation.ResolvesInReach | dc-agents/scripts/derive-lockfile.ts:115-141 | what is found lies on the way up with nothing of its name nearer |
| Relocation.FaithfulIff | dc-agents/scripts/derive-lockfile.ts:115-278 | for every lockfile: each package loads what it loaded before if and only if packages that are moved to one place are the same and the new folder of each dependency lies on the way up from the new place of its dependant with nothing of that name moved nearer |
| Conflicts.PushedElsewhere | dc-agents/scripts/derive-lockfile.ts:197-242 | no package is pushed below itself |
| Conflicts.OnTheWayIff | dc-agents/scripts/derive-lockfile.ts:197-242 | for every lockfile: no dependency is left behind if and only if no pushed package has a package nested below it or depends on another pushed one |
| Conflicts.PushedInReachIff | dc-agents/scripts/derive-lockfile.ts:197-242 | for every lockfile: a pushed package finds a dependency if and only if that is not nested, not pushed itself, and nothing of its name lies below the top folder or below the namesake in it |
| Conflicts.PlainInReach | dc-agents/scripts/derive-lockfile.ts:197-242 | if nothing is nested or chained and conflicting direct dependencies have no dependencies, every package that is not pushed finds all its dependencies |
| Conflicts.SameNewPlace | dc-agents/scripts/derive-lockfile.ts:197-242 | under the same condition two packages meet at one place only if one is a direct dependency of the workspace and the other its namesake at the root |
| Conflicts.FaithfulIffHarmless | dc-agents/scripts/derive-lockfile.ts:197-278 | if conflicting direct dependencies have no dependencies: each package loads what it loaded before if and only if direct namesakes agree and nothing is nested below, chained to or shadowed for a pushed package |
| Conflicts.HarmfulBreaks | dc-agents/scripts/derive-lockfile.ts:197-278 | for every lockfile each of these causes breaks it |
| Conflicts.NoConflictIsFaithful | dc-agents/scripts/derive-lockfile.ts:115-278 | without conflicting names everything that resolved resolves to the moved copy of the same package, and different places stay different |
| Conflicts.DeriveLockfileIsFaithful | dc-agents/scripts/derive-lockfile.ts:251-278 | deriveLockfile as a whole: name, version and package of the workspace, and the exact condition under which the result can stand alone |
| ConflictExample.ChainedConflictBreaks | dc-agents/scripts/derive-lockfile.ts:197-242 | in a lockfile where args needs one camelcase and that one decamelize, with other versions of both at the root, the derived lockfile is broken with nothing nested |
| ConflictExample.RootIsExample | dc-agents/scripts/derive-lockfile.ts:197-242 | there is such a lockfile |
| Coalescing.Migration.Collect | scripts/coalesce_run_sql/run.py:30-52 | the joined text, the ascending indices of all SQL statements and the first of them |
| Coalescing.Migration.DeleteAll | scripts/coalesce_run_sql/run.py:54-59 | deleting by index, the highest first, leaves exactly the other commands in order |
| Coalescing.Migration.Coalesce | scripts/coalesce_run_sql/run.py:17-80 | the file is written exactly for a bulk migration with at least five characters of SQL, and then holds the coalesced list |
| Coalescing.CoalescedPlace | scripts/coalesce_run_sql/run.py:68-77 | what precedes the first statement is unchanged, the one statement follows, then the rest without statements |
| Coalescing.CoalescedOthers | scripts/coalesce_run_sql/run.py:54-77 | all other commands keep their order |
| Coalescing.CoalescingIsIdempotent | scripts/coalesce_run_sql/run.py:30-77 | the SQL as a whole is the same text, and a second run changes nothing |
| Coalescing.NormaliseKeepsIff | scripts/coalesce_run_sql/run.py:46-49 | mending keeps a statement if and only if it is empty or ends with a semicolon or a newline |
| Coalescing.NormaliseMends | scripts/coalesce_run_sql/run.py:46-49 | what mending makes of a statement: nothing changes after a semicolon and a newline; otherwise all but the last character stays and these two follow |
| Sidebar.Generator.GenerateSidebarPositions | cli/commands/docs.go:443-449 | the counter and the map after numbering a command tree |
| Sidebar.PositionsAreBijective | cli/commands/docs.go:443-449 | the positions are exactly 1 to N, one for each command |
| Sidebar.SubtreeIsInterval | cli/commands/docs.go:443-449 | a command and its descendants have consecutive positions, the command first, and every command comes after the root |
| Sidebar.ChildrenInOrder | cli/commands/docs.go:443-449 | subcommands are numbered in the order in which they are listed |
| Sidebar.OnlyCommands | cli/commands/docs.go:443-449 | only paths of commands get a number |
| Sidebar.PathOfChild | cli/commands/docs.go:443-449 | the path of a subcommand is that of its parent, a blank and its name |
| Sidebar.PathsAreDistinct | cli/commands/docs.go:443-449 | paths are distinct if no command has two subcommands of one name |
| Sidebar.IndentString | cli/commands/docs.go:406-419 | the loop returns the text with the prefix before every line that is not empty |
| Sidebar.IndentedLineByLine | cli/commands/docs.go:406-419 | indenting neither joins nor splits lines: every line that is not empty gets the prefix, the others stay empty |

## Left out

- Runner: SQL is a string that a server accepts or not; requests, transactions, metadata calls and timing are not modelled.
- Pipeline.NoDeadlock: speaks about runs without an error message, because a collector stops reading after one.
- Engine.Migrate.RunMigrations: the store never fails and no stop arrives midway; both are covered by the runs of `Protocol`.
- Engine.Migrate.Lock: a plain flag; the timeout goroutine and its timer are not modelled.
- Engine.Migrate.Read: a version with metadata files only has no body; legacy yaml migrations have no content in the model.
- Engine.Migrate.ReScan: the project directory does not change while the object lives, so only the server is scanned again.
- SquashMeaning.SquashExact: requires an up file, or a metadata file in its place, for every version of the range, and no empty files; without an up file the squash fails with the error the reader sends.
- SquashedRuns.SquashThenUp: requires of each file that what follows it on a new line, or nothing, is not affected by it; a file may end in a line comment, but not inside a statement that needs the next file.
- PipelineFailure.ReturnsIffFits: speaks about the up direction; the error sets the stop flag, at which reader and compiler of the down direction give up, and that direction, which is never blocked, is not modelled for this case. A command that never returns is a result of its own in `SquashCommand` (`Blocked`).
- SquashMeaning.Squash: a stop is pending from the start or never comes; one that arrives midway is not modelled here.
- SquashCommand.Run: moving, renaming and deleting directories succeed, the answer to the prompt is the parameter `deleteSource`, and the time stamp of the intermediate directory is not modelled.
- Lockfiles.KeyInjective: paths and names are lists of their segments between slashes; names contain no segment `node_modules`.
- Dependencies.AcyclicTerminates: the stack of the script is as deep as the engine allows, in the model it is a number.
- Relocation.FaithfulIff: speaks about dependencies that were found; an optional peer that was nowhere may be found in the new lockfile, since packages of the workspace move up to the root; and the search from behind a link starts at the place of the link, as in the script, not at its target, as in Node.js.
- Conflicts.FaithfulIffHarmless: requires that conflicting direct dependencies have no dependencies; with them the exact condition is that of `Relocation.FaithfulIff`, and `Conflicts.HarmfulBreaks` gives one direction in terms of the branches.
- Coalescing.Migration.Coalesce: comments are not collected, and the YAML text of the new command is taken to read back as the SQL it was written from.
- Sidebar.Generator.GenerateSidebarPositions: the children of a command come in the order the library gives them.
- Progress bars, spinners, logging, prompts and table printing: user interface only.
- Migration.Buffer, pipes and time stamps: a body is a value here.
- The state stores and copying between them, exporting and applying metadata: code behind an interface.
- The deploy and init state machines: small fixed tables over a package that is not part of this model.
- Plugins, self-update, version compatibility, console, benchmarks and test servers: libraries, files and network.
