# WiiCompiled: a verified model

WiiCompiled turns a game disc into native executables. Its installer publishes
several directories and files at once and must survive being killed at any
moment; its repair decides what to rebuild from recorded hashes; its runtime hands
frames between threads, caches digests of guest memory and dispatches guest calls
through tables and memos. This project models these parts in Dafny and proves what
they promise. Each area is a group of modules that can be read on its own.

**Installing without losing anything** (`FileTree`, `InstallDisk`, `InstallPlan`,
`Transactions` in InstallTransaction.dfy, `InstallRuns`). The disk is a tree of
nodes in a class whose every step may fail or be the last one before the process
dies. Renames and journal writes are atomic, a recursive delete is not. The
transaction is a class whose methods run on that disk. Whatever happens, the disk
always *leads to* one image of the installation: the one before the transaction
until the journal that commits it is written, the published one from then on. A ghost
counter counts the steps that fail, so that contracts say what holds where none does,
and what one of them can do.

**Repairing until nothing is left to do** (`ProductInspection`, `ProductStatuses`,
`ProductRepair`). The inspection is a set of pure functions over what an installation
records, with lemmas that say when each answer is given; the repair is a set of methods
that decide, rebuild and publish. Compiler, build script and payload service are inputs.

**Frames** (`FrameWorker`, `FrameRuns`, `Presentation`, `PresentationRuns`). The
hand-off between the producer of frames and the worker is a state machine whose steps
are the sections under the worker's mutex; theorems speak of every run. The cursor that
slides deadlines and the presenter's queue are classes; runs of frames are encoded and
slid through them.

**Guest memory and calls** (`GuestWrites`, `StaticDispatch`, `DispatchMemo`,
`BitMasks`, `RegisterGuards`). Write generations against always digesting again;
bisection in the generated table against a linear scan; memos and latches against
the uncached resolvers, with other threads stepping in between; the register guards
against what a callee may leave.

**Texts and downloads** (`ConfigText`, `ConfigSections`, `ConfigEditor`,
`ConfigFiles`, `Identity`, `ResumableDownload`). The configuration editor from
single characters to the whole file, the texts and byte streams behind identities,
and the download that resumes after a broken read.

## What does not hold

Some of what the code or its comments promise fails for certain inputs. Each case
has a proof that it fails and a condition that says exactly when it does not.

- `Begin` accepts any number of entries, but the journal of more than 64 is refused
  by every rollback and recovery, so such a transaction can neither be undone nor
  does the lock ever open again once it is interrupted (`Begin`, `RollBack`,
  `Recover`).
- Undoing a first installation removes the configuration that was not there before,
  and removing a file throws when its directory is missing. The directory is made only
  by the first write of the configuration, so a first installation for one user that
  is killed after its preimage is journaled and before that write is recovered by no
  later attempt, although its journal is valid (`InterruptedFirstInstall`). Where
  no step fails, recovery succeeds if and only if the journal has at most 64 entries
  (and the form that every journal written here has), and either needs no configuration
  to be absent or finds the directory of the configuration (`Recover`, `RollBack`,
  `Acquire`).
- A repair that returns need not leave both products current: the inspection wants
  fst.bin, a recognisable local-build.json and matching support files, none of which
  the repair checks, and it compares the recorded payload length, which the repair
  does not. It converges if and only if these hold (`Converges`,
  `StaleLengthIsNeverRepaired`, `RepairWithoutFst`).
- Two calls of `end_frame` with neither `begin_frame` nor quiesce in between block
  both threads forever (`TwoEndsDeadlock`); every reachable deadlock is of this kind
  (`DeadlockExactly`).
- The comment on the fold of write counters says that it can never return to an
  earlier value. With counters of 32 bits it can (`CountersCanCollide`), and then the
  cache hands out a digest of other bytes (`HandOutWrongDigest`). It repeats if
  and only if no granule was notified in the meantime, or the notifications add up to
  2^32 for every wrap in the meantime (`FoldRepeatsExactly`); a digest of other bytes can
  be accepted exactly in the second case (`WrongSkipExactly`), and never with fewer than
  2^32 notifications of the range since its generation was read
  (`FewNotificationsSkipExactly`).
- Groups of presentation slots can interleave. Groups of one interval do so for some
  readings of a steady clock, near their bases, if and only if one of them falls strictly
  between the first and the last slot of the group before it, modulo the interval, where
  that one may stand on the grid of any earlier group (`InterleaveExactly`,
  `TwoGroupsInterleaveExactly`).
- The download can return a mixture of two versions: a local failure after the
  validator was replaced and before the file is truncated pairs the new validator
  with the old bytes (`MixedDownload`). An attempt does this if and only if it fails
  there, for a complete answer, while other bytes are on disk (`StepKeepsResumable`).
- The download can return a beginning of the file as if it were finished: the check of
  the range is skipped when the server leaves the length of the file open
  (`TruncatedDownload`), and that of the body when it declares no length
  (`CutOffDownload`). What is returned is whole if and only if the answer reached the end
  of the file and its body arrived whole (`ReturnedVersion`, `NoMixedDownload`).
- Removing a path from the configuration leaves the setting in place when the file
  names it twice (`ConfigFiles.ConfigFile.RemovePathIfOwned`).

The comment above the download says that it never joins two versions, the one above
the fold that it never repeats; the model follows the code. The branch of the
download that forgets the validator after an `InvalidDataException` cannot run,
because that exception is not an `IOException` and is not caught.

## Reading the model

Functions and lemmas say what is meant; methods with loops and classes follow the
code that updates things in place, and are proved against those functions. Inputs
that come from outside (the disk's behaviour, answers of servers, steps of other
threads, clocks) are nondeterministic or parameters. Verify everything with
`dafny verify dfyconfig.toml`.

## Model

| member | source | states |
|---|---|---|
| `FileTree.MovedSubtree` | Launcher/WiiCompiled.Setup.Common/FileSystemUtilities.cs:108-119 | a rename carries a subtree whole, leaves nothing at the source, and changes no node outside the two |
| `FileTree.ChildlessDeleted` | Launcher/WiiCompiled.Setup.Windows/InstallTransaction.cs:339-343 | removing one childless node after another stays within what an interrupted recursive delete may leave |
| `InstallDisk.Disk.Rename` | Launcher/WiiCompiled.Setup.Windows/InstallTransaction.cs:314-333 | all or nothing, whether it fails or the process dies; where no step fails it succeeds whenever the source is there and the place is free |
| `InstallDisk.Disk.Delete` | Launcher/WiiCompiled.Setup.Windows/InstallTransaction.cs:339-343 | not atomic: any part of the subtree may be left, with parents kept; done means gone, and deleting what is not there is a success |
| `InstallDisk.Disk.WriteJournal` | Launcher/WiiCompiled.Setup.Common/JsonState.cs:25-32 | the journal on disk is the old one or the new one, never a part |
| `InstallDisk.Disk.SetConfig` | Launcher/WiiCompiled.Setup.Common/RuntimeConfiguration.cs:49-55 | writing the configuration makes its directory; removing one that is absent fails where that directory is missing |
| `Transactions.DigitsInjective` | Launcher/WiiCompiled.Setup.Windows/InstallTransaction.cs:251-262 | backup names made from four or more digits of the index are different for different indices |
| `Transactions.DigitsAreValue` | Launcher/WiiCompiled.Setup.Windows/InstallTransaction.cs:251-262 | a backup name reads back as the index it was made from, in at least four digits |
| `Transactions.BackupsApart` | Launcher/WiiCompiled.Setup.Windows/InstallTransaction.cs:251-262 | no two backups contain one another |
| `Transactions.AcceptedEntriesIsolated` | Launcher/WiiCompiled.Setup.Windows/InstallTransaction.cs:221-262 | the pairwise checks on requests and the fresh sibling work root make the prepared, destination and backup subtrees of all entries disjoint |
| `Transactions.AcceptableExactly` | Launcher/WiiCompiled.Setup.Windows/InstallTransaction.cs:221-248 | requests are accepted exactly when every destination is in the installation, every prepared path is there, none is there as the other kind, and none of all the paths named is at or below another |
| `InstallPlan.OtherEntryUntouched` | Launcher/WiiCompiled.Setup.Windows/InstallTransaction.cs:86-91 | a step on one entry changes no node of the prepared, destination or backup subtree of any other entry |
| `InstallPlan.BeyondUntouched` | Launcher/WiiCompiled.Setup.Windows/InstallTransaction.cs:86-91 | nor any node outside the entries, except for directories made on the way to a destination |
| `InstallPlan.EntryHandled` | Launcher/WiiCompiled.Setup.Windows/InstallTransaction.cs:196-219 | after any such step every entry can still be undone, and entries already undone stay undone |
| `InstallPlan.MovePrepared` | Launcher/WiiCompiled.Setup.Windows/InstallTransaction.cs:86-91 | at its turn a prepared path is there, its destination is free, and only directories stand above the destination if only directories stood there before |
| `InstallPlan.BackupDirectoryMade` | Launcher/WiiCompiled.Setup.Windows/InstallTransaction.cs:68-75 | creating the work root leaves everything else as it was and every entry untouched |
| `Transactions.InstallTransaction.NormalizeEntries` | Launcher/WiiCompiled.Setup.Windows/InstallTransaction.cs:221-262 | the double loop accepts exactly the request lists whose entries are in scope, exist, and are pairwise apart |
| `Transactions.InstallTransaction.Begin` | Launcher/WiiCompiled.Setup.Windows/InstallTransaction.cs:50-79 | refuses an empty list, an unfinished journal or overlapping entries without touching the disk; otherwise opens a transaction whose journal a recovery accepts if and only if it has at most 64 entries |
| `Transactions.InstallTransaction.PublishEntries` | Launcher/WiiCompiled.Setup.Windows/InstallTransaction.cs:86-91 | whatever step it is stopped at, every entry can be undone; done means every destination holds what was prepared |
| `Transactions.InstallTransaction.Publish` | Launcher/WiiCompiled.Setup.Windows/InstallTransaction.cs:81-111 | done: every destination holds its prepared contents and the journal says so; otherwise the disk leads back to the state before Begin; where no step fails with no file in the way of a destination it is done |
| `Transactions.InstallTransaction.RecordRuntimeConfigurationMutation` | Launcher/WiiCompiled.Setup.Windows/InstallTransaction.cs:118-125 | from a durable preimage on, the old configuration can be restored; a failure leads back to the state before Begin |
| `Transactions.InstallTransaction.Commit` | Launcher/WiiCompiled.Setup.Windows/InstallTransaction.cs:131-138 | the durable Committed journal is the point of no return: before it the disk leads to the old state, after it to exactly the published one; once the journal is gone, so is every backup |
| `Transactions.InstallTransaction.TryCleanCommitted` | Launcher/WiiCompiled.Setup.Windows/InstallTransaction.cs:345-358 | cleaning up after a commit never changes a destination, even when it is interrupted, and the work root with every backup is gone before the journal that names it |
| `Transactions.InstallTransaction.CleanRolledBack` | Launcher/WiiCompiled.Setup.Windows/InstallTransaction.cs:191-193 | the same order at the end of a rollback |
| `Transactions.InstallTransaction.Dispose` | Launcher/WiiCompiled.Setup.Windows/InstallTransaction.cs:140-144 | an unfinished transaction is rolled back, under the same condition; a finished one is left alone |
| `Transactions.InstallTransaction.RollBackEntry` | Launcher/WiiCompiled.Setup.Windows/InstallTransaction.cs:196-219 | neither of its two throws can be reached from any state that publishing, rolling back and partial deletion can produce; done restores the destination |
| `Transactions.InstallTransaction.RollBackEntries` | Launcher/WiiCompiled.Setup.Windows/InstallTransaction.cs:176-177 | in reverse order, all entries end restored; interrupted anywhere, all can still be undone |
| `Transactions.InstallTransaction.RollBack` | Launcher/WiiCompiled.Setup.Windows/InstallTransaction.cs:171-194 | ends in the state before Begin or stays undoable; where no step fails it succeeds if and only if the journal is valid and, where the configuration is to be absent again, its directory exists; without that directory it never succeeds and leaves journal and configuration as they are; with the journal the work root is gone |
| `Transactions.InstallTransaction.Recover` | Launcher/WiiCompiled.Setup.Windows/InstallTransaction.cs:147-169 | keeps the target the disk leads to, and done means that journal and work root are gone; where no step fails it succeeds if and only if there is no journal, or a valid one whose configuration can be put back; any other journal blocks every attempt |
| `Transactions.InstallTransaction.Move` | Launcher/WiiCompiled.Setup.Windows/InstallTransaction.cs:314-333 | only source, destination and the directories on the way to the destination change |
| `InstallRuns.Acquire` | Launcher/WiiCompiled.Setup.Windows/InstallOperationLock.cs:20-51 | the lock is handed out only with recovery finished, and no journal, work root or scratch directory left; where no step fails, a free lock is handed out if and only if recovery can succeed; a lock held elsewhere changes nothing |
| `InstallRuns.RecordAndWrite` | Launcher/WiiCompiled.Setup.Windows/InstallerEngine.cs:303-312 | the configuration is written only after its preimage is journaled, so a failure leads back to both the old files and the old configuration |
| `InstallRuns.Conclude` | Launcher/WiiCompiled.Setup.Windows/InstallerEngine.cs:303-312 | publish, record, write, commit and dispose: the disk leads to the old state or, once committed, to exactly the new entries and the new configuration; if one step of the file system fails, what is not committed is undone before the call returns |
| `InstallRuns.Update` | Launcher/WiiCompiled.Setup.Windows/InstallerEngine.cs:278-312 | one publication under the lock is all or nothing for entries and configuration together; where no step fails and no file is in the way, an accepted one is made and leaves neither journal nor backup; where one step fails, what is not made is undone at once |
| `InstallRuns.InstalledShows` | Launcher/WiiCompiled.Setup.Windows/InstallTransaction.cs:81-138 | the view of the installation after a committed transaction is the old view with exactly its destinations replaced |
| `InstallRuns.RecoverScratch` | Launcher/WiiCompiled.Setup.Windows/InstallScratchSpace.cs:41-54 | done means that no directory whose name begins with .mkwc-scratch- is left beside the installation or directly in it; nothing else goes, and nothing comes |
| `InstallRuns.RunOperations` | Launcher/WiiCompiled.Setup.Windows/InstallOperationLock.cs:20-51 | over any sequence of lock attempts, failures and crashes, every operation that gets the lock sees the first installation with exactly the transactions committed before it, whole and in order, and so will the next recovery; only operations that got the lock commit; where no step fails, with at most 64 entries each, exactly those get it that do not find it held |
| `InstallRuns.InterruptedFirstInstall` | Launcher/WiiCompiled.Setup.Windows/InstallerEngine.cs:303-306 | every acceptable first installation without a configuration directory, killed once its preimage is journaled, leaves a valid journal that no later attempt to take the lock gets past |
| `ProductRepair.RefreshTranslationAssets` | Launcher/WiiCompiled.Setup.Windows/ProductRepairService.cs:619-656 | succeeds exactly when the game data is what was asked for or recorded, and then the translator's inputs are that data |
| `ProductStatuses.SameExactly` | Launcher/WiiCompiled.Setup.Windows/Installation.cs:414-415 | equality that ignores the case of the letters A to Z |
| `ProductStatuses.ToolkitIdentified` | Launcher/WiiCompiled.Setup.Windows/Installation.cs:177-190 | the toolkit is known by its fingerprint exactly when its state file has version 2 and names it and its package |
| `ProductStatuses.ProvenExactly` | Launcher/WiiCompiled.Setup.Windows/Installation.cs:444-510 | provenance holds exactly when executable, disc, state file and the script's record all name the same hashes |
| `ProductStatuses.BaseStatusExactly` | Launcher/WiiCompiled.Setup.Windows/Installation.cs:272-293 | which of its four answers the inspection gives about the base product, from the fields of the installation |
| `ProductStatuses.BaseFilesExactly` | Launcher/WiiCompiled.Setup.Windows/Installation.cs:260-266 | support files of another toolkit turn current into broken and change no other answer |
| `ProductStatuses.MissingRetroExactly` | Launcher/WiiCompiled.Setup.Windows/Installation.cs:316-327 | without its executable Retro Rewind is absent exactly when this installation's state file does not record it, and else broken or, without a usable toolkit, blocked |
| `ProductStatuses.RetroChangedExactly` | Launcher/WiiCompiled.Setup.Windows/Installation.cs:329-369 | when inputs are missing, and when toolkit, code or compile inputs have changed |
| `ProductStatuses.RetroCurrentExactly` | Launcher/WiiCompiled.Setup.Windows/Installation.cs:329-412 | when Retro Rewind is current and when only its payload has changed, by an observation or by the cached file |
| `ProductStatuses.RetroFilesExactly` | Launcher/WiiCompiled.Setup.Windows/Installation.cs:300-310 | support files again only decide between current and broken |
| `ProductRepair.DecideRetro` | Launcher/WiiCompiled.Setup.Windows/ProductRepairService.cs:163-188 | the chain of flags comes down to one condition for rebuilding and one for republishing the payload |
| `ProductRepair.Decide` | Launcher/WiiCompiled.Setup.Windows/ProductRepairService.cs:143-197 | each of the five decisions holds exactly when the inspection or the payload asks for it; a base operation refuses when Retro Rewind needs its folder |
| `ProductRepair.PayloadChangedIsOnline` | Launcher/WiiCompiled.Setup.Windows/Installation.cs:383-412 | the status that only the payload changed is given only of a product built with a payload, and of an observed cache only when it differs |
| `ProductRepair.PayloadExactly` | Launcher/WiiCompiled.Setup.Windows/ProductRepairService.cs:94-117 | the payload is what was downloaded, or after a failure what both records and the cache agree on; a timeout leaves none |
| `ProductRepair.DecidedExactly` | Launcher/WiiCompiled.Setup.Windows/ProductRepairService.cs:143-197 | what each decision says of the fields of the installation, of the options and of the payload |
| `ProductRepair.AdmittedExactly` | Launcher/WiiCompiled.Setup.Windows/ProductRepairService.cs:76-162 | a repair gets as far as carrying out its decisions exactly when none of nine named conditions refuses it |
| `ProductRepair.RepairableExactly` | Launcher/WiiCompiled.Setup.Windows/ProductRepairService.cs:207-290 | a decided repair can be carried out exactly when none of five named conditions hinders it |
| `ProductRepair.RebuiltBase` | Launcher/WiiCompiled.Setup.Windows/Installation.cs:272-293 | a rebuilt base product is current exactly when its recorded build is recognised and fst.bin is there |
| `ProductRepair.RebuiltRetro` | Launcher/WiiCompiled.Setup.Windows/Installation.cs:312-376 | the same for a rebuilt Retro Rewind product and its payload |
| `ProductRepair.RetroKeptAfter` | Launcher/WiiCompiled.Setup.Windows/ProductRepairService.cs:416-471 | a product that was kept is current after publication exactly when fst.bin is there and the recorded payload length is that of the payload |
| `ProductRepair.StateFitsAfter` | Launcher/WiiCompiled.Setup.Windows/ProductRepairService.cs:555-602 | after every publication the state file agrees with the game data, the compile inputs and the recorded folder |
| `ProductRepair.Converges` | Launcher/WiiCompiled.Setup.Windows/ProductRepairService.cs:291-310 | a finished repair leaves both products current if and only if its outputs are recognisable, and then nothing is left to do |
| `ProductRepair.NothingDecided` | Launcher/WiiCompiled.Setup.Windows/ProductRepairService.cs:199-205 | a repair decides to do nothing exactly when both products are current for these inputs and the folder is recorded |
| `ProductRepair.NothingDecidedConverges` | Launcher/WiiCompiled.Setup.Windows/ProductRepairService.cs:199-205 | a repair that does nothing leaves both products current under the same condition |
| `ProductRepair.RebuildProducts` | Launcher/WiiCompiled.Setup.Windows/ProductRepairService.cs:212-283 | succeeds exactly with an unmodified toolkit, usable inputs and builds that pass their checks; what is recorded names the verified inputs |
| `ProductRepair.RebuildAndPublish` | Launcher/WiiCompiled.Setup.Windows/ProductRepairService.cs:207-310 | publishes exactly when the decided repair can be carried out, and every way out meets the outcome stated for it; the throw about an unstaged payload cannot be reached |
| `ProductRepair.Reconcile` | Launcher/WiiCompiled.Setup.Windows/ProductRepairService.cs:76-310 | a failure publishes nothing, and its error names a condition that holds; a return means that nothing refuses or hinders the repair, commits exactly when there was something to do, changes exactly what was decided, records what was asked for, and leaves both products current if and only if the outputs are recognisable |
| `ProductRepair.RepairBaseOnly` | Launcher/WiiCompiled.Setup.Windows/ProductRepairService.cs:143-162 | where Retro Rewind neither is nor was installed, a repair of the base product never asks for its folder, leaves it alone, and returns exactly when the base product can be kept or rebuilt |
| `ProductRepair.RepairTwice` | Launcher/WiiCompiled.Setup.Windows/ProductRepairService.cs:76-310 | a second repair with the same inputs, even with the payload service out of reach, publishes nothing |
| `ProductRepair.PayloadObtainedAgain` | Launcher/WiiCompiled.Setup.Windows/ProductRepairService.cs:313-363 | the payload that a repair used is the one that recovery finds when the service is out of reach |
| `ProductRepair.StaleLengthIsNeverRepaired` | Launcher/WiiCompiled.Setup.Windows/ProductRepairService.cs:377-381 | a recorded payload length that is wrong is never repaired: the repair finds nothing to do while the inspection answers that the payload changed |
| `ProductRepair.NothingCurrentWithoutFst` | Launcher/WiiCompiled.Setup.Windows/Installation.cs:444-510 | without fst.bin neither product is ever current, on any installation |
| `ProductRepair.RepairWithoutFst` | Launcher/WiiCompiled.Setup.Windows/ProductRepairService.cs:76-310 | on every installation without fst.bin, a repair that returns has rebuilt and committed the base product, fst.bin is still missing and neither product is current |
| `FrameWorker.InvNext` | aurora-main/lib/aurora.cpp:267-287 | the invariant of the hand-off is kept by every step of either thread |
| `FrameWorker.PhasesInOrder` | aurora-main/lib/aurora.cpp:2016-2041 | in every reachable state DONE implies SEALED and at most one frame is queued or being worked on |
| `FrameWorker.FramesTakenInOrder` | aurora-main/lib/aurora.cpp:343-362 | every frame is taken at most once, in queue order, with the content tag and anchor queued with it; without a stop exactly once |
| `FrameWorker.ImGuiFramesWait` | aurora-main/lib/aurora.cpp:2026-2035 | no ImGui frame starts while a slot of the sealed frame still has to be replayed |
| `FrameRuns.AllSlotsReplayed` | aurora-main/lib/aurora.cpp:1985-2040 | in every run each slot that was sealed is replayed exactly once: before the permit is awaited when the frame does not overlap, and else after the next frame is published as prepared and before an ImGui frame starts or the frame is done; frames have one to four slots and overlap exactly with more than one |
| `FrameRuns.FlagFollows` | aurora-main/lib/aurora.cpp:2008-2023 | a frame counts as prepared exactly when the last preparation published since the last end or join succeeded |
| `FrameRuns.DebtIsPaid` | aurora-main/lib/aurora.cpp:2011-2035 | a deferred ImGui frame starts exactly when the preparation of the frame left one to be started |
| `FrameRuns.WaitsEndAtPhase` | aurora-main/lib/aurora.cpp:402-440 | every wait returns in the phase it waits for |
| `FrameRuns.QueuedWhenDone` | aurora-main/lib/aurora.cpp:2156-2191 | a frame is queued only when the one before it is done with |
| `FrameRuns.SurfaceChangesWait` | aurora-main/lib/aurora.cpp:2105-2138 | while a surface changes, begin_frame does not return before the frame is done |
| `FrameRuns.DoneFramesArePrepared` | aurora-main/lib/aurora.cpp:2129-2153 | where a frame is done and none is prepared, begin_frame prepares one and records how that went before it returns |
| `FrameRuns.PermitsGranted` | aurora-main/lib/aurora.cpp:2117-2124 | begin, quiesce and stop grant the permit that a frame being worked on waits for |
| `FrameRuns.PermitTakenBack` | aurora-main/lib/aurora.cpp:2206-2224 | what quiesce granted is taken back before it returns |
| `FrameWorker.PermitIsForItsFrame` | aurora-main/lib/aurora.cpp:1999-2006 | a permit lets through the preparation of the frame it was granted for and of no other, and is spent with that |
| `FrameWorker.DeadlockExactly` | aurora-main/lib/aurora.cpp:2093-2224 | a waiting producer is deadlocked if and only if the worker awaits a permit for a frame after whose end neither begin nor quiesce was called |
| `FrameWorker.WaitEnds` | aurora-main/lib/aurora.cpp:2206-2224 | otherwise the wait ends: the worker makes at most a computed number of steps, and while the call is blocked it can always make one |
| `FrameWorker.CallsThatGrantDoNotOwe` | aurora-main/lib/aurora.cpp:442-462 | begin, quiesce and stop never leave their own wait in the deadlocked case |
| `FrameWorker.TwoEndsDeadlock` | aurora-main/lib/aurora.cpp:2156-2191 | two ends with neither begin nor quiesce in between do deadlock |
| `Presentation.GroupAnchor` | aurora-main/lib/aurora.cpp:1874-1883 | an anchor is never before the clock it was encoded by nor on the one before it; a slide that the cursor does not cap lands within one interval after now |
| `Presentation.SlotDeadlineExactly` | aurora-main/lib/aurora.cpp:1717-1729 | n slots share the interval evenly, rounded down to nanoseconds; without interpolation a frame is due at the base less the interval plus 6.5 ms; without a schedule there is no deadline |
| `Presentation.GroupScheduler.Slide` | aurora-main/lib/aurora.cpp:1870-1899 | all jobs of a group shift by the same amount, the recorded periods are the shift rounded up, and nothing else of a job changes |
| `Presentation.AnchorsIncrease` | aurora-main/lib/aurora.cpp:1870-1899 | over a run of scheduled groups the anchors strictly increase |
| `Presentation.AnchorsOnGrid` | aurora-main/lib/aurora.cpp:1876-1883 | with one interval and bases that agree modulo it, every anchor stays on that grid |
| `Presentation.GroupsDoNotInterleave` | aurora-main/lib/aurora.cpp:1717-1729 | then every slot of a group presents before every slot of a later group; the deadlines are those of the queued jobs (PresentationRuns.EncodeRun) |
| `Presentation.SlotsInOrder` | aurora-main/lib/aurora.cpp:1727-1728 | the deadlines within a group do not decrease; they too are those of the queued jobs |
| `PresentationRuns.Encode` | aurora-main/lib/aurora.cpp:1717-1865 | the jobs of a frame: its interpolated slots and then the frame itself, each with its deadline |
| `PresentationRuns.EncodeRun` | aurora-main/lib/aurora.cpp:1717-1899 | over a run of scheduled frames, encoded and slid one after the other, every queued job carries the deadline of its slot, the jobs of a frame share its interval evenly, and on one grid the whole stream of deadlines does not decrease |
| `PresentationRuns.InterleaveExactly` | aurora-main/lib/aurora.cpp:1870-1899 | groups of one interval interleave for some clocks that never go back and lie between the first base and two periods per group after the last one, if and only if some group falls strictly between the first and the last slot of the group before it, where that one stands on the grid of any earlier group; otherwise for no clocks at all |
| `PresentationRuns.TwoGroupsInterleaveExactly` | aurora-main/lib/aurora.cpp:1870-1899 | two groups: for some such clocks if and only if the second base lies strictly between the first group's first and last slot, modulo the interval |
| `Presentation.Presenter.EnqueuePresentations` | aurora-main/lib/aurora.cpp:1394-1428 | a group goes in whole and last; what waited is kept as long as at most eight jobs, or three times the group, wait in all, and else dropped |
| `Presentation.Presenter.TakeJob` | aurora-main/lib/aurora.cpp:1345-1371 | jobs come out in the order they went in, none twice |
| `Presentation.Presenter.DrainAfterStop` | aurora-main/lib/aurora.cpp:1345-1371 | after a stop everything that still waits is presented, in order |
| `GuestWrites.AliasesAgree` | runtime/include/gx_guest_write.h:18-38 | the cached, uncached and physical names of a byte are one address |
| `GuestWrites.OthersAreThemselves` | runtime/include/gx_guest_write.h:18-38 | every other address stands for itself |
| `GuestWrites.TrackedExactly` | runtime/include/gx_guest_write.h:46-70 | tracked ranges are the non-empty ones that end within the first 0x18000000 canonical bytes, among them every range of main memory by any of its names |
| `GuestWrites.GranulesExactly` | runtime/include/gx_guest_write.h:71-74 | a granule is 64 KiB: which granule each byte of a range is in |
| `GuestWrites.EqualSumsUntouched` | runtime/include/gx_guest_write.h:59-79 | counters that only grow and have the same sum are pointwise the same |
| `GuestWrites.FoldRepeatsExactly` | runtime/include/gx_guest_write.h:59-79 | the fold of 32-bit counters repeats an earlier value if and only if nothing was notified in the meantime, or as much was as the wraps in the meantime take back |
| `GuestWrites.UnnotifiedBytesUnchanged` | runtime/include/gx_guest_write.h:84-99 | a write that bumps no granule of a tracked range changes none of its bytes |
| `GuestWrites.SkippedExactly` | runtime/include/gx_guest_write.h:101-106 | the skip contract is met exactly for tracked ranges that were not notified, or whose counters collide |
| `GuestWrites.FewNotificationsSkipExactly` | runtime/include/gx_guest_write.h:101-106 | with fewer than 2^32 notifications of the range since its generation was read, it is met exactly when there was none, whatever wrapped before |
| `GuestWrites.SkipIsSound` | runtime/include/gx_guest_write.h:101-106 | unless the counters of the range collide, a digest that may be skipped is the digest of the bytes now |
| `GuestWrites.WrongSkipExactly` | runtime/include/gx_guest_write.h:59-79 | a digest of other bytes can be accepted if and only if the counters of the range collide |
| `GuestWrites.CountersCanCollide` | runtime/include/gx_guest_write.h:59-79 | and they can, for every tracked range over two granules: its first granule wraps and its last one is notified 2^32 - 1 times |
| `GuestWrites.ScanCache.GenerationForRange` | runtime/include/gx_guest_write.h:62-79 | the wrapped fold is the plain sum, and is the untracked value exactly for untracked ranges |
| `GuestWrites.ScanCache.NotifyWrite` | runtime/include/gx_guest_write.h:84-99 | exactly the granules of the clamped range are bumped, each once |
| `GuestWrites.ScanCache.Write` | runtime/include/gx_guest_write.h:84-99 | every record and every scan in progress stays truthful across a write through any alias |
| `GuestWrites.ScanCache.Consult` | runtime/src/hle/gx/gx_dl.cpp:545-575 | a digest handed out is that of the bytes now: read, or skipped while the counters of the range do not collide |
| `GuestWrites.ScanCache.Probe` | runtime/src/hle/gx/gx_dl.cpp:540-577 | a hit renews the record's generation, a miss begins a scan, and a skip happens exactly under the skip contract; a skipped digest is that of the bytes now unless the counters collide |
| `GuestWrites.ScanCache.Store` | runtime/src/hle/gx/gx_dl.cpp:580-619 | a digest is stored under the generation read before its scan, whatever was written in between |
| `GuestWrites.HandOutWrongDigest` | runtime/include/gx_guest_write.h:59-106 | a run of the cache that ends with a wrong digest handed out, for every such range and every byte whose change changes the digest |
| `StaticDispatch.PartsOfAddress` | runtime/include/abi_bridge.h:102-104 | the top eight bits of an address are its segment, the next twelve its page |
| `StaticDispatch.RangeIsPage` | runtime/include/abi_bridge.h:102-117 | the range that is searched for an address is that of the page whose 4 KiB cover it |
| `StaticDispatch.FindStaticIndirectDispatchEntry` | runtime/include/abi_bridge.h:96-134 | what it returns carries the queried address in any table; an entry in the sorted page that covers its address is found; with sorted pages the answer is the first such entry of the page, and with every entry in the page of its address what a linear scan of the whole table returns |
| `StaticDispatch.Bisect` | runtime/include/abi_bridge.h:119-133 | in a sorted range the bisection returns what a scan of that range returns |
| `StaticDispatch.AnswersLikeScan` | runtime/include/abi_bridge.h:69-94 | the pages answer like a linear scan for every address if and only if the first occurrence of every address lies in the page of that address |
| `DispatchMemo.RegisteredIsResolved` | runtime/include/abi_bridge.h:334-348 | a registered address has its registration and any other none, and the base translation is active exactly where it is what is registered |
| `DispatchMemo.TableWins` | runtime/include/abi_bridge.h:376-383 | an entry of the table wins over a dynamic record, which answers where the table has none |
| `DispatchMemo.Dispatcher.FindByAddress` | runtime/include/abi_bridge.h:334-348 | asked after publication the answer, remembered or not, is the registry's; asked before it is the registry's at some moment since, and is not remembered |
| `DispatchMemo.Dispatcher.FindRawByAddress` | runtime/include/abi_bridge.h:354-386 | the same for raw records, table first and dynamic records second; before publication there is none |
| `DispatchMemo.Dispatcher.ResolveDirectCpuTargetInfoCached` | runtime/include/abi_bridge.h:498-519 | a latch holds only what the published registry answers, whatever other threads do between the steps |
| `DispatchMemo.Dispatcher.IsBaseTranslatedCpuTargetActive` | runtime/include/abi_bridge.h:525-541 | the same for the verdict, because publication is read before the registry |
| `DispatchMemo.Dispatcher.Run` | runtime/include/abi_bridge.h:306-541 | over any run of lookups, each asked at its own moment of any schedule of registrations and one publication, what is asked after publication is answered as the uncached resolvers answer at the end, and what is asked before it as they answer at some moment since, in the order of the lookups |
| `BitMasks.BitExactly` | runtime/include/abi_bridge.h:175-180 | bit r of a mask is the parity of what is left after r bits are shifted out |
| `BitMasks.SingleRunExactly` | runtime/include/abi_bridge.h:162-168 | the carry test succeeds for exactly the masks whose bits are one run, also one ending at the highest bit, and the two indices computed from it are its ends |
| `BitMasks.RunOfMask` | runtime/include/abi_bridge.h:162-168 | a mask that passes the test is the difference of the two powers of two at these indices |
| `BitMasks.RunPasses` | runtime/include/abi_bridge.h:162-168 | every run passes the test |
| `RegisterGuards.EffectiveMask` | runtime/include/abi_bridge.h:152-153 | the guard covers exactly the requested registers among f14 to f31 |
| `RegisterGuards.FprGuard.SaveRun` | runtime/include/abi_bridge.h:162-174 | the straight-line copy saves every covered register |
| `RegisterGuards.FprGuard.SaveEach` | runtime/include/abi_bridge.h:175-180 | the loop over the bits saves the same registers |
| `RegisterGuards.FprGuard.Restore` | runtime/include/abi_bridge.h:183-201 | the covered registers are those of the call, all others those the callee left |
| `RegisterGuards.GprGuard.Restore` | runtime/include/abi_bridge.h:219-238 | r14 to r31 are those of the call, r0 to r13 those the callee left |
| `RegisterGuards.GuardedCall` | runtime/include/abi_bridge.h:150-217 | for every mask, register file and callee, exactly the masked registers among f14 to f31 survive a guarded call |
| `RegisterGuards.NestedGuards` | runtime/include/abi_bridge.h:150-217 | nested guards compose, and over one saved file they act as one guard with the union of the masks |
| `RegisterGuards.NestedCall` | runtime/include/abi_bridge.h:150-217 | a guarded call inside a guarded call gives each guard its own registers, the outer one first |
| `ConfigText.RemoveComment` | Launcher/WiiCompiled.Setup.Common/RuntimeConfiguration.cs:259-278 | the loop over three flags returns the text before the first hash outside quotes |
| `ConfigText.CommentBegins` | Launcher/WiiCompiled.Setup.Common/RuntimeConfiguration.cs:259-278 | a comment begins at the first hash outside quotes and nowhere in a string, closed or not, whatever escapes it holds |
| `ConfigText.AssignmentMeaning` | Launcher/WiiCompiled.Setup.Common/RuntimeConfiguration.cs:194-235 | a written assignment is read back as its key and the value without comment and surrounding space |
| `ConfigText.BlankHasNothing` | Launcher/WiiCompiled.Setup.Common/RuntimeConfiguration.cs:219-222 | a blank line is nothing to any reader |
| `ConfigText.QuoteIsNormal` | Launcher/WiiCompiled.Setup.Common/RuntimeConfiguration.cs:280-281 | a quoted value has no comment in it and nothing to trim, whatever it holds |
| `ConfigText.QuotingRoundTrip` | Launcher/WiiCompiled.Setup.Common/RuntimeConfiguration.cs:259-308 | every string comes back from quoting through comment removal, trimming and unquoting |
| `ConfigText.UnquotedExactly` | Launcher/WiiCompiled.Setup.Common/RuntimeConfiguration.cs:283-293 | what is refused: everything but a string whose both ends are single or both double quotes; between single quotes nothing is resolved |
| `ConfigText.EscapeUnescaped` | Launcher/WiiCompiled.Setup.Common/RuntimeConfiguration.cs:294-306 | between double quotes a backslash gives way to the character after it, but for one that ends the string |
| `ConfigText.TryUnquote` | Launcher/WiiCompiled.Setup.Common/RuntimeConfiguration.cs:283-308 | literal strings are taken as they are, basic strings with each escape resolved once, anything else is refused |
| `ConfigSections.SetThenRead` | Launcher/WiiCompiled.Setup.Common/RuntimeConfiguration.cs:194-235 | an edit makes exactly one key of one section read differently, in a list with any repeated sections and keys |
| `ConfigSections.PlaceExactly` | Launcher/WiiCompiled.Setup.Common/RuntimeConfiguration.cs:194-235 | an edit goes to the first line of the key in the first section with the header, else behind the last line of that section which is not blank, else to the end |
| `ConfigSections.PlaceAfterSet` | Launcher/WiiCompiled.Setup.Common/RuntimeConfiguration.cs:194-235 | a second edit finds the line that the first one wrote |
| `ConfigSections.RemoveThenRead` | Launcher/WiiCompiled.Setup.Common/RuntimeConfiguration.cs:136-165 | removing the line a key is read from changes no other key, and removes the key exactly when it occurred once |
| `ConfigEditor.SetThenGet` | Launcher/WiiCompiled.Setup.Common/RuntimeConfiguration.cs:194-235 | the same law for lines of text |
| `ConfigEditor.SetTwice` | Launcher/WiiCompiled.Setup.Common/RuntimeConfiguration.cs:194-235 | setting twice leaves the lines that the second setting alone would leave |
| `ConfigEditor.SetLineExactly` | Launcher/WiiCompiled.Setup.Common/RuntimeConfiguration.cs:194-235 | one line is replaced, or one line is new at its place, or the section and the line are appended, after a blank line if the text does not end with one |
| `ConfigEditor.GetRawValue` | Launcher/WiiCompiled.Setup.Common/RuntimeConfiguration.cs:168-188 | the loop returns the first value of the key in any section with this header |
| `ConfigEditor.ConfigLines.SetSectionValue` | Launcher/WiiCompiled.Setup.Common/RuntimeConfiguration.cs:194-235 | the edit in place replaces the first line of the key in the first such section, inserts after the section's last line, or appends the section |
| `ConfigEditor.ConfigLines.RemovePathIfOwned` | Launcher/WiiCompiled.Setup.Common/RuntimeConfiguration.cs:136-165 | a line is removed exactly when the stored value unquotes to a path the caller owns |
| `ConfigFiles.SplitTextOf` | Launcher/WiiCompiled.Setup.Common/RuntimeConfiguration.cs:237-242 | lines written to the file are read back, an empty list as one blank line |
| `ConfigFiles.LoneReturnSplit` | Launcher/WiiCompiled.Setup.Common/RuntimeConfiguration.cs:237-242 | a carriage return alone ends a line too |
| `ConfigFiles.FreshFile` | Launcher/WiiCompiled.Setup.Common/RuntimeConfiguration.cs:237-257 | a path stored in a missing file makes a file of a title, a blank line, the section and the path |
| `ConfigFiles.SetThenStored` | Launcher/WiiCompiled.Setup.Common/RuntimeConfiguration.cs:112-117 | through the file: the setting reads as written and every other one as before, also when the file did not exist |
| `ConfigFiles.StoredTwice` | Launcher/WiiCompiled.Setup.Common/RuntimeConfiguration.cs:112-117 | through the file: the second of two settings leaves what it alone would leave |
| `ConfigFiles.ConfigFile.SetPath` | Launcher/WiiCompiled.Setup.Common/RuntimeConfiguration.cs:112-117 | any single-line path that is stored is the path that is read, and nothing else changes |
| `ConfigFiles.ConfigFile.SetDvdRoot` | Launcher/WiiCompiled.Setup.Common/RuntimeConfiguration.cs:57-58 | the disc root is read back as stored, and the Retro Rewind root as before |
| `ConfigFiles.ConfigFile.SetRetroRewindRoot` | Launcher/WiiCompiled.Setup.Common/RuntimeConfiguration.cs:65-66 | the Retro Rewind root is read back as stored, and the disc root as before |
| `ConfigFiles.ConfigFile.EnsureVrEnabledByDefault` | Launcher/WiiCompiled.Setup.Common/RuntimeConfiguration.cs:72-78 | VR is enabled only where the file says nothing about it |
| `ConfigFiles.ConfigFile.RemovePathIfOwned` | Launcher/WiiCompiled.Setup.Common/RuntimeConfiguration.cs:136-165 | a path the caller does not own leaves the file as it is; an owned one is gone exactly when the file named it once |
| `ResumableDownload.NoMixedDownload` | Launcher/WiiCompiled.Setup.Windows/ResumableDownload.cs:9-72 | with a server that tells the truth about what it declares, and any changes of version and broken reads, a download that returns leaves the version that the returning attempt was an answer of, or a beginning of it exactly if that answer was not whole, if no local failure in the window between replacing the validator and opening the file leaves other bytes behind it |
| `ResumableDownload.ReturnedVersion` | Launcher/WiiCompiled.Setup.Windows/ResumableDownload.cs:29-61 | from a resumable state a returning attempt leaves the whole version if and only if its answer reached the end of the file and arrived whole, and a beginning of that version otherwise |
| `ResumableDownload.DeclaredIsWhole` | Launcher/WiiCompiled.Setup.Windows/ResumableDownload.cs:37-41 | a declared length of the file rules a short answer out, a declared length of the body leaves only ranges that stop before the end |
| `ResumableDownload.StepKeepsResumable` | Launcher/WiiCompiled.Setup.Windows/ResumableDownload.cs:37-46 | an attempt that fails keeps the file and the validator together if and only if it is harmless in that window |
| `ResumableDownload.ResumableExactly` | Launcher/WiiCompiled.Setup.Windows/ResumableDownload.cs:29-61 | no next attempt can return a mixture if and only if the bytes on disk begin the version of the validator or cannot be resumed |
| `ResumableDownload.MixedDownload` | Launcher/WiiCompiled.Setup.Windows/ResumableDownload.cs:37-46 | three attempts against an honest server return a mixture of two versions |
| `ResumableDownload.TruncatedDownload` | Launcher/WiiCompiled.Setup.Windows/ResumableDownload.cs:39-41 | a range that stops early, with the length of the file left open, is returned as a finished download |
| `ResumableDownload.CutOffDownload` | Launcher/WiiCompiled.Setup.Windows/ResumableDownload.cs:38-61 | so is, in any state, a body of undeclared length that ends early without an error |
| `ResumableDownload.StepExactly` | Launcher/WiiCompiled.Setup.Windows/ResumableDownload.cs:20-61 | when an attempt ends the download, asks for another or returns, which tag it keeps and what it leaves of the file |
| `ResumableDownload.Download.Run` | Launcher/WiiCompiled.Setup.Windows/ResumableDownload.cs:15-71 | the loop of three attempts is the fold of single attempts that the theorems speak about |
| `ResumableDownload.Download.Try` | Launcher/WiiCompiled.Setup.Windows/ResumableDownload.cs:20-61 | one attempt, chunk by chunk, leaves the file and the validator that its specification gives |
| `Identity.FieldsRoundTrip` | Launcher/WiiCompiled.Setup.Windows/CompileInputsFingerprint.cs:158-165 | the field sequence can be read back from the bytes that are hashed |
| `Identity.FieldsInjective` | Launcher/WiiCompiled.Setup.Windows/CompileInputsFingerprint.cs:158-165 | different field sequences give different bytes |
| `Identity.CompileInputsInjective` | Launcher/WiiCompiled.Setup.Windows/CompileInputsFingerprint.cs:40-60 | the same stream comes only from the same code file and the same kinds of entries |
| `Identity.TextInjective` | Launcher/WiiCompiled.Setup.Windows/ToolkitFingerprint.cs:271-278 | with newline-free names and bar-free hashes, equal identity texts come only from the same version and the same entries |
| `Identity.BarsConfuse` | Launcher/WiiCompiled.Setup.Windows/ToolkitFingerprint.cs:271-278 | a bar in a hash would let two entry lists share a text |
| `Identity.LessExactly` | Launcher/WiiCompiled.Setup.Windows/ToolkitFingerprint.cs:81-116 | names are in ordinal order |
| `Identity.SortedIsUnique` | Launcher/WiiCompiled.Setup.Windows/ToolkitFingerprint.cs:81-116 | a sorted list is determined by its entries |
| `Identity.OrderIndependent` | Launcher/WiiCompiled.Setup.Windows/ToolkitFingerprint.cs:217-232 | hashing the same files in any order gives the same entries |
| `Identity.SortedDictionary.Add` | Launcher/WiiCompiled.Setup.Windows/ToolkitFingerprint.cs:231-232 | the dictionary stays sorted and holds exactly the added entry more |
| `Identity.Collect` | Launcher/WiiCompiled.Setup.Windows/ToolkitFingerprint.cs:231-232 | collecting a bag gives its entries, the last hash of a name winning |
| `Identity.BuildIdentity` | Launcher/WiiCompiled.Setup.Windows/ToolkitFingerprint.cs:271-278 | the loop appends exactly the text of the entries |
| `Identity.CompareWalks` | Launcher/WiiCompiled.Setup.Windows/ToolkitFingerprint.cs:74-129 | the compile texts of two walks agree exactly when they found the same files with the same hashes, and the texts of a subset exactly when they did so within it |

## Left out

- Paths are sequences of names: normalisation, case folding and separators are not modelled, a name stands for its folded spelling; an install root that is a drive root is excluded.
- Transactions.InstallTransaction.Move: the retries on a transient lock and their sleeps are one step that may fail; a drive-to-drive move does not occur.
- Transactions.InstallTransaction.RollBack: the configuration file is found from the restored root in the source; here it is one file outside every entry.
- Transactions.InstallTransaction.Begin: an empty work root stays behind when the process is killed, or the journal cannot be written, right after it was made; nothing names it, as in the source.
- InstallDisk.Disk.WriteJournal: the temporary file beside the journal is not a node of the tree, and the journal is a value, not JSON text.
- InstallRuns.RecoverScratch: the identifier of the installation inside a scratch name is not modelled, so an installation that is itself named like a scratch directory is excluded, and scratch space of a neighbouring installation is not told apart.
- InstallRuns.Acquire: the creation of the lock's directory and the lock file itself are an answer from outside.
- InstallRuns.RunOperations: operations whose fresh work root collides with an existing path are skipped; the original draws a new identifier each time.
- InstallPlan.BeyondUntouched: directories created on the way to a destination stay after a rollback, as in the source.
- A caller that goes on with a transaction after one of its calls failed is not modelled; a ghost field records that none does.
- Whether the operation may go on without a file it cannot read: inspection reads what is there, and unreadable files are missing files.
- ProductRepair.Reconcile: disk space, cancellation, progress, the clean retry of a build, the copied user configuration of a product and the order of the two builds are not modelled.
- ProductRepair.RefreshTranslationAssets: the copies themselves are a change of the recorded content.
- Equality of hashes ignores case for the letters A to Z only.
- Hashes, signatures and the content of builds are uninterpreted values; the registry, shortcuts, console and process handling are not modelled.
- FrameWorker: graphics work is a step without content; timed waits, spurious wakeups and telemetry are left out, and so is what begin_frame answers while a surface changes. On platforms without the worker the synchronous path applies, which is not modelled.
- PresentationRuns.InterleaveExactly: groups with different intervals in one run are not covered; for them only what holds of every run is proved.
- Presentation: times are unbounded natural numbers; wrap-around of 64-bit nanoseconds, and of an offset below the base, is not modelled. Stalls of the driver and dropped images on screen are not modelled.
- GuestWrites.ScanCache.Probe: the key's layout hash and collisions of keys, the eviction of records and the number of bytes they take are left out; relaxed ordering between threads is not modelled, a write and its notification are one step.
- StaticDispatch.FindStaticIndirectDispatchEntry: a page array shorter than its declared count is not modelled.
- DispatchMemo: registration and publication are a schedule of moments that keeps to one rule, that nothing changes after publication; the registry's own source is not part of this model.
- DispatchMemo.Dispatcher.FindByAddress: how an address is hashed to a slot of the memo is modelled, but no result depends on it.
- RegisterGuards: moving values of registers is all a callee does; slots that the source leaves uninitialised start with zero here and are never read.
- ConfigFiles.ConfigFile.SetPath: how a path is made relative to a portable root, and encodings of the file, are not modelled; a path with a line end in it is excluded.
- ResumableDownload.Download.Run: cancellation, timeouts, progress and the free-space test are failures of an attempt; an answer of several ranges, or one without the range it covers, is refused in the source as one that does not match is here.
- Identity.Collect: parallel hashing is the order of a list; the walk over directories and its filters are not modelled, and neither is the rejection of links.
- Snapshots of compile inputs, the translator, process launching, disc extraction, shaders, stereo matrices and menus are not modelled.
