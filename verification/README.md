# Custback: models and proofs

Custback replaces the background of a camera picture and is shipped as an npm package that manages
its own Python environment. This project models the parts of it whose correctness does not follow
from reading one function, and proves what they promise.

| module | what it models |
|---|---|
| `InstallLock` | the install lock as a state machine over single file-system calls: any number of participants, any of them dead at any call |
| `InstallLockTiming` | runs of it with times: what the settle delay achieves |
| `InstallLockLoop` | the same code as the loop it is, tied call by call to the state machine |
| `ManagedRuntime` | the managed environment on disk: promotion, journal, recovery, cleanup and whole install runs, with faults and crashes at every call |
| `PathRewrite`, `Migration` | the restartable move of an environment to a new root, and its interplay with promotion recovery |
| `VideoSchedule`, `VideoRuns`, `VideoContainer` | what timestamps teach, when a frame is due, and what a call shows; playbacks followed to the end, on the claimed frame rate and on the file's own clock |
| `VideoDecoder`, `VideoBackdrop` | the scheduler that keeps a looping video on the wall clock, and the decoder behind it |
| `Capture`, `CaptureWorker` | the camera worker: controller, readers and consumer in any interleaving; and its object, whose controller loop runs with anything happening between its locked sections |
| `CadenceHistory`, `Cadence` | the cadence tracker's counters and window against a recount of the full history |
| `TarReader`, `SafePaths` | reading one file out of an npm tarball |
| `JsonText`, `CanonicalJson` | the canonical JSON text by which evidence is compared |
| `ConfigMerge` | JSON merge patches for the configuration |
| `Options` | an option type |

A disk, a lock directory and a world under migration are values held in one field of an object; every
change is one atomic file-system call, which works, fails without effect, or is the process's last.
Calls whose outcome lies outside the program (health checks, subprocesses, a decoder's answers, the
clock) take their outcomes from inputs over which every statement quantifies.

## What the proofs turned up

Each of these is a lemma or the exact condition in one.

- **The lock's exclusion rests on its settle delay.** With the inode test and the barrier scan as one
  step it needs no timing assumption; with them apart, a breaker that is slow without bound lets two
  live processes into the callback (`InstallLock.ExclusionNeedsTiming`). If every breaker is done within the
  delay after looking at the lock, and no lock counts as stale until two delays after it was linked,
  exclusion holds in all runs (`InstallLockTiming.PunctualMutualExclusion`).
- **A waiter can mistake a release for foreign metadata.** It then throws, although every file was
  written by the protocol (`InstallLock.WaiterMayMisreadRelease`). It is the only way in which a lone
  waiter fails to get in (`InstallLock.LoneWaiterEnters`).
- **Recovery from a committed journal whose generation has vanished cannot be re-entered** after a crash
  between its rename and the removal of the journal; in every other case recovery can
  (`ManagedRuntime.RecoveryResumable`). Promotion never leaves such a journal.
- **A garbage directory blocks migration for ever.** A crash while a candidate is built leaves a `gen-`
  directory without a marker; migration of that root then throws in every run. The exact condition is
  in `Migration.GetsThroughExactly`: own markers and real `bin` directories everywhere,
  completeness of the active generation only.
- **A decoder that reports one time for every frame can freeze a playback.** A skip or seek leaves a mark
  that makes the file look too short at its next end; the next seek then overshoots
  (`VideoRuns.ConstantStampsFreeze`). Which sequences of calls are safe is decided by their times alone
  (`VideoRuns.PlaysDueExactly`).
- **Variable-rate videos do not keep their timing.** Every look-ahead replaces the length
  learnt at the file's end by an estimate from the latest step, and the next deadline counts whole loops with
  it. Frames at 0, 0.5 and 1.5 seconds, the file of a test that follows one loop, are shown at 2.5 and 2.5001
  seconds in the second (`VideoContainer.UnevenFileHurries`). All calls are on time exactly for files whose
  frames are evenly spaced, at whatever rate (`VideoContainer.OnTimeExactly`).
- **Rewriting a script twice is harmless for exactly the pairs of paths of `PathRewrite.RepeatableExactly`.**
  The two default paths of a generation always are such a pair (`PathRewrite.GenerationPathsStable`,
  `PathRewrite.DefaultRootsDiffer`); those of a direct environment are not under an npm prefix such as
  `/.custback-venv` (`PathRewrite.UnluckyPrefix`), where a migration that is interrupted and taken up again may
  end elsewhere than one that is not (`Migration.DirectResumesExactly`).
- **An outage's baseline is not always the last frame**: one that arrives while the outage is being
  declared is followed by an early reopen (`Capture.RacedReopenIsEarly`).
- **One native open may still happen after a fatal error**, if the controller was already committed to it;
  its device is never adopted (`Capture.OneOpenAfterFatal`, `Capture.FatalIsFinal`).
- **The cadence window forgets more than two seconds** when a snapshot was taken for a later time than the
  next send: what was pruned does not come back (`CadenceHistory.EarlyPruneForgets`). The stated window
  is exact in all cases; it is the plain two-second one when times do not go back.
- **The tar reader's "too large" error cannot occur**: its field holds at most twelve octal digits
  (`TarReader.SizeIsSafe`).
- **Merge patches differ from RFC 7396 exactly on nulls that name nothing**, as the code's comment says
  (`ConfigMerge.StandardMerge`).


## Model

| member | source | states |
|---|---|---|
| `InstallLock.MutualExclusion` | packaging/npm/managed-venv.js:972-1096 | In every run of any number of participants, each dying anywhere, in which each entrant tested its inode while no live breaker was between judging and restoring a lock: at most one live participant is in the callback, it owns the canonical lock until released, and neither "ownership changed unexpectedly" nor a failed publish is ever thrown; the assumption is derived in the next rows |
| `InstallLock.SettledMutualExclusion` | packaging/npm/managed-venv.js:972-1096 | The same conclusions when the timing assumption is placed at the inode test instead: a participant that finds its lock in place meets no live breaker armed on another lock, which in every reachable state means no live breaker armed at all |
| `InstallLock.SettledIsTimely` | packaging/npm/managed-venv.js:1036-1085 | That assumption at the inode test gives the one at the barrier scan, along any run; by itself it says nothing of a delay |
| `InstallLock.SettledExactly` | packaging/npm/managed-venv.js:1038-1039 | In a reachable state the assumption at the inode test holds if and only if no live breaker is armed |
| `InstallLockTiming.PunctualMutualExclusion` | packaging/npm/managed-venv.js:972-1096 | The same conclusions from the settle delay, on runs whose events carry times: a breaker is done with the lock within the settle delay of looking at it, who links the lock waits that delay before testing its inode, and a lock counts as old enough to break only two delays after it was linked |
| `InstallLockTiming.PunctualIsTimely` | packaging/npm/managed-venv.js:1036-1085 | From every state such a run can reach, the rest of it satisfies the timing assumption of the first row |
| `InstallLockTiming.PunctualIsSettled` | packaging/npm/managed-venv.js:1038-1085 | Who finds its own lock in place after the delay finds no live breaker armed on another lock |
| `InstallLockTiming.ChronicleStep` | packaging/npm/managed-venv.js:972-1025 | Every event of such a run keeps: an armed breaker has judged the very lock it saw, and any other lock it meets or has moved was linked after its look |
| `InstallLockTiming.RestoreIsFresh` | packaging/npm/managed-venv.js:985-995 | A lock that is restored was linked less than a settle delay ago |
| `InstallLock.CoarseIsTimely` | packaging/npm/managed-venv.js:1039-1040 | Taking the inode test and the barrier scan as one step makes every run satisfy that timing assumption |
| `InstallLock.CoarseMutualExclusion` | packaging/npm/managed-venv.js:1036-1055 | With those two calls as one step, two live participants in the callback are the same one, with no timing assumption |
| `InstallLock.ExclusionNeedsTiming` | packaging/npm/managed-venv.js:1039-1085 | A concrete run: with the two calls split and a breaker that is slow without bound, two live participants are in the callback together, so exclusion rests on the settle delay |
| `InstallLock.WaiterMayMisreadRelease` | packaging/npm/managed-venv.js:946-951 | A concrete run: a waiter that reads the lock just after its owner released it ends with "not owned metadata" although only this protocol wrote the files |
| `InstallLock.PatientIsNotRefused` | packaging/npm/managed-venv.js:1042-1080 | In any interleaving a waiter is refused for lateness only if one of its own readings was past its deadline |
| `InstallLock.LateWaiterStops` | packaging/npm/managed-venv.js:1042-1085 | And past its deadline a waiter that has not published goes round again only after finding its own lock or after breaking a dead one |
| `InstallLock.LoneWaiterEnters` | packaging/npm/managed-venv.js:972-1096 | From every reachable state in which everybody else is dead, wherever they died, a waiter within its deadline enters the callback after exactly `Distance`, at most 25, calls of its own, except in the one state of the previous row, where it throws |
| `InstallLock.AloneStays` | packaging/npm/managed-venv.js:1038-1086 | Each call of a lone waiter lowers the distance to the callback by exactly one and keeps it out of the misled state |
| `InstallLock.RunSound` | packaging/npm/managed-venv.js:833-907 | Every run keeps: a live participant has its private record until it leaves, its barrier stands exactly while it reclaims, and reclaiming removes only records of dead owners |
| `InstallLock.ApplyExclusive` | packaging/npm/managed-venv.js:972-1086 | Each single step keeps: whoever claims the lock has it, and then no live breaker is armed |
| `InstallLock.NoBarrierIsClean` | packaging/npm/managed-venv.js:875-907 | If no live barrier is found, no live breaker can touch the lock name |
| `InstallLockLoop.Waiter.WithInstallLock` | packaging/npm/managed-venv.js:1027-1096 | The polling loop, while others stand still: behind a live owner it fails with the deadline at the first turn whose last reading is past it, and else goes on polling, the lock untouched; with at most dead owners' old leftovers in the way it breaks, links and enters within three turns and leaves the name free; the deadline is never the reason before it has passed, nor for a waiter whose lock is in place; its own record always goes |
| `InstallLockLoop.Waiter.Poll` | packaging/npm/managed-venv.js:1038-1086 | One turn, stated on files and clock readings alone: a live barrier is waited for, with a deadline only for who never published; the own lock is entered; a missing own record fails; a free name is linked; a dead owner's old lock is broken with its record; behind any other lock the turn fails exactly if its last reading is past the deadline |
| `InstallLockLoop.Waiter.TakeTurns` | packaging/npm/managed-venv.js:1038-1086 | The same for any number of turns |
| `InstallLockLoop.Waiter.Contend` | packaging/npm/managed-venv.js:1056-1082 | A taken name: entered if ours by now, reclaimed if stale, waited for otherwise |
| `InstallLockLoop.Waiter.Reclaim` | packaging/npm/managed-venv.js:972-1025 | The barrier goes up before and down after, however the reclaim ends; a lock whose owner is dead and old at the second look goes with its record, any other stays |
| `InstallLockLoop.Waiter.Leave` | packaging/npm/managed-venv.js:1088-1095 | The release unlinks the canonical lock only if it is still the own inode, and always the own record |
| `InstallLockLoop.PlayedAlone` | packaging/npm/managed-venv.js:1036-1086 | At readings where records are old enough and the deadline has not passed, the loop's calls are those the progress theorem counts |
| `ManagedRuntime.RecoveryConverges` | packaging/npm/managed-venv.js:675-731 | From every disk promotion can leave, recovery goes through; every disk on the way is again such a disk and leads to the same end, without journal; recovering the end changes nothing |
| `ManagedRuntime.RecoveryResumable` | packaging/npm/managed-venv.js:675-731 | On any disk recovery accepts: it can be cut off anywhere and started again with the same end if and only if no committed journal names a vanished generation |
| `ManagedRuntime.RecoveryActivatesComplete` | packaging/npm/managed-venv.js:675-731 | On any disk on which recovery goes through it links a complete generation its committed journal names, or puts a complete previous environment back, or leaves a direct one that was never moved; all else is kept |
| `ManagedRuntime.RecoveryActivatesCurrent` | packaging/npm/managed-venv.js:675-731 | Recovery activates the new environment if the commit was durable and the original otherwise, and leaves the intent alone |
| `ManagedRuntime.RecoveryKeepsConsistency` | packaging/npm/managed-venv.js:675-731 | Every disk recovery passes through keeps the installer's whole invariant |
| `ManagedRuntime.RecoveryKeepsCurrent` | packaging/npm/managed-venv.js:675-731 | No step of recovery loses the environment it will activate |
| `ManagedRuntime.NamedIsPresent` | packaging/npm/managed-venv.js:733-747 | Whatever the target link or the journal names is present and complete, or is the direct environment not moved aside yet |
| `ManagedRuntime.PromotionKeepsConsistency` | packaging/npm/managed-venv.js:563-634 | However a promotion ends, the invariant holds and the environment that was active is on disk |
| `ManagedRuntime.AddingKeepsConsistency` | packaging/npm/install.js:425-480 | Adding unnamed generations keeps the invariant and the active environment |
| `ManagedRuntime.ResolvesToActive` | packaging/npm/install.js:247-270 | Without CUSTBACK_EXTRAS and with a valid active stamp, the resolved extras are the active environment's if and only if no disagreeing intent is as new as it |
| `ManagedRuntime.Runtime.Recover` | packaging/npm/managed-venv.js:675-731 | On any disk, cut off anywhere: stops on a disk of the recovery sequence, ends on its last one, refuses exactly where the sequence does and then changes nothing |
| `ManagedRuntime.Runtime.RecoverRepeatedly` | packaging/npm/managed-venv.js:675-731 | Any number of interrupted recoveries and one whole one end where one whole recovery ends |
| `ManagedRuntime.Runtime.ReplaceWithLink` | packaging/npm/managed-venv.js:541-561 | The target is atomically the new link, or untouched |
| `ManagedRuntime.Runtime.MoveAside` | packaging/npm/managed-venv.js:569-595 | Journalled move and link; if one call fails the direct environment is back at once without a journal; else a disk from which recovery gives it back |
| `ManagedRuntime.Runtime.Commit` | packaging/npm/managed-venv.js:616-632 | The commit is durable, or undone, or left for recovery; if only the journal write fails the direct environment is back at once |
| `ManagedRuntime.Runtime.Rollback` | packaging/npm/managed-venv.js:600-615 | A rejected promotion: for every kind of previous target, if the restoring calls work it is back and no journal is left; a direct environment is put back or left to recovery |
| `ManagedRuntime.Runtime.Promote` | packaging/npm/managed-venv.js:563-634 | However it ends, the disk settles on the promoted or on the original one, on the promoted exactly when a committed link is in place, and the original direct environment is at exactly one of target and `legacy-` path; without I/O errors it succeeds exactly if the promoted environment is the expected one and healthy, and otherwise what was active is active again; in any case a rejected generation stays active only if undoing it failed |
| `ManagedRuntime.Runtime.PromoteThenRecover` | packaging/npm/managed-venv.js:563-731 | Promotion cut off anywhere, recoveries cut off anywhere, one whole recovery: the promoted disk if the commit was durable, else the original; the original at exactly one place; nothing left to recover |
| `ManagedRuntime.Runtime.RemoveTree` | packaging/npm/managed-venv.js:522-535 | Recursive removal cut off anywhere: done means the name is gone; otherwise it is still there and any of completeness, marker and stamp may be gone, and nothing else changed |
| `ManagedRuntime.Runtime.Fill` | packaging/npm/install.js:430-463 | Filling an entry touches only that entry; healthy means complete and not yet marked or stamped |
| `ManagedRuntime.Runtime.WriteMetadata` | packaging/npm/install.js:408-411 | Marker, then stamp; done means both |
| `ManagedRuntime.Runtime.BuildOne` | packaging/npm/install.js:425-480 | One candidate: kept complete, marked and stamped for exactly the request, or removed; no call is made after a crash |
| `ManagedRuntime.Runtime.Build` | packaging/npm/install.js:110-114 | The implicit MediaPipe set first, only if neither MediaPipe nor Audio2face is asked for; when its packages cannot be installed and all else works, the build succeeds exactly then; without I/O errors a failed build leaves the disk as it was |
| `ManagedRuntime.Runtime.Cleanup` | packaging/npm/managed-venv.js:781-798 | Removes only complete owned generations outside the kept set, and all of them when it finishes |
| `ManagedRuntime.Runtime.WriteIntent` | packaging/npm/install.js:228-245 | The intent file is replaced as a whole, with the extras and the time, or untouched; invalid extras are refused |
| `ManagedRuntime.Runtime.Reuse` | packaging/npm/install.js:574-590 | The reuse branch changes at most the intent, and afterwards it agrees |
| `ManagedRuntime.Runtime.Discard` | packaging/npm/install.js:628-636 | A candidate that was not promoted is removed only, and without I/O errors exactly, if neither target nor journal names it |
| `ManagedRuntime.Runtime.Conclude` | packaging/npm/install.js:617-627 | Intent and cleanup after a promotion keep the new and the previous generation |
| `ManagedRuntime.Runtime.Publish` | packaging/npm/install.js:603-636 | From the candidate on: the old environment survives every outcome; without I/O errors it succeeds exactly if validation does, leaving just the new and the previous complete generation, and otherwise everything is as before, without the candidate |
| `ManagedRuntime.Runtime.InstallRecovered` | packaging/npm/install.js:539-640 | What is asked for, case by case (`AskedFor`); refusals touch nothing; success means active stamp and intent both say it; the active environment is reused exactly if it is that, complete and healthy; without I/O errors a throw leaves the disk as it was |
| `ManagedRuntime.ResolvesAsAsked` | packaging/npm/install.js:247-270 | The whole table of what is asked for: a valid given list; an intent unless a newer, valid, disagreeing stamp overrides it; else what the active or else the adopted stamp lists, nothing if it lists nothing; refused are unparsable, conflicting and malformed lists |
| `ManagedRuntime.Runtime.Install` | packaging/npm/install.js:537-640 | A whole locked run, for any request, fault and crash: the invariant holds, the active environment survives, and what CUSTBACK_EXTRAS, the intent or the stamps ask for (`AskedFor`) is what is installed; without I/O errors it succeeds if all it starts works, and a throw leaves the recovered disk as it was |
| `ManagedRuntime.Runtime.InstallRuns` | packaging/npm/install.js:247-640 | Over any sequence of such runs the next run without CUSTBACK_EXTRAS resolves to exactly the recovered active environment's extras |
| `PathRewrite.RewriteIdempotent` | packaging/npm/migrate-legacy.js:69-99 | Rewriting a script a second time changes nothing, for any text, if the paths are equal, or neither contains the other, no end of the new one begins the old one, and an end of the old one begins the new one only if it begins the old one too |
| `PathRewrite.RepeatableExactly` | packaging/npm/migrate-legacy.js:69-99 | And for no other two paths: reruns change no script whatever if and only if the two paths are so |
| `PathRewrite.UnluckyPrefix` | packaging/npm/migrate-legacy.js:391-433 | An npm prefix at which the direct layout's two paths are not so, and a rerun changes some script: `/.custback-venv` |
| `PathRewrite.NoneLeft` | packaging/npm/migrate-legacy.js:69-99 | After a rewrite the old path occurs nowhere, not even across the seams of replacements |
| `PathRewrite.LongerPathGrows` | packaging/npm/migrate-legacy.js:69-99 | A longer new path makes every text that contains the old path strictly longer |
| `PathRewrite.NestedPathBreaksReruns` | packaging/npm/migrate-legacy.js:69-99 | If the new path contains the old one, a second rewrite of the old path changes it again |
| `PathRewrite.RerunExactly` | packaging/npm/migrate-legacy.js:69-99 | For one given script and two different paths: a rerun changes nothing if and only if the first run left no occurrence of the old path |
| `PathRewrite.OverlapBreaksReruns` | packaging/npm/migrate-legacy.js:69-99 | Whenever the first occurrence, rewritten, and what surrounds it contain the old path again, a rerun changes that script |
| `PathRewrite.NewInsideOldBreaks` | packaging/npm/migrate-legacy.js:69-99 | If the new path lies inside a different old one, a rerun changes some script |
| `PathRewrite.NewEndBeginsOldBreaks` | packaging/npm/migrate-legacy.js:69-99 | If an end of the new path begins a different old one, a rerun changes some script |
| `PathRewrite.OldEndBeginsNewBreaks` | packaging/npm/migrate-legacy.js:69-99 | If an end of the old path begins the new one but not the old one itself, a rerun changes some script |
| `PathRewrite.GenerationPathsStable` | packaging/npm/migrate-legacy.js:233-262 | The two paths of a generation are always so, unless one root ends with the other or has the generation's name as a component |
| `PathRewrite.DefaultRootsDiffer` | packaging/npm/migrate-legacy.js:233-262 | Under every npm prefix the two default roots are not ends of each other |
| `Migration.RepeatFromRoots` | packaging/npm/migrate-legacy.js:233-262 | So what a generational migration needs of its paths follows from the two roots and the names |
| `Migration.DirectResumesExactly` | packaging/npm/migrate-legacy.js:391-433 | A direct migration cut off after its scripts were rewritten can be taken up again with the same goal, whatever the scripts say, if and only if its two paths are repeatable: the one thing `Migrate` asks of them |
| `Migration.GenerationalResumesExactly` | packaging/npm/migrate-legacy.js:304-343 | A generational one can, whatever its generations, if and only if the two paths of every generation are; its logical targets do not matter |
| `Migration.Migrator.Migrate` | packaging/npm/migrate-legacy.js:345-434 | One run from any point of either layout, cut off anywhere: it ends in the goal fixed by the start, or the goal and whether it can be reached are unchanged; a whole run succeeds exactly if every `gen-` and `legacy-` directory has its own marker, of one of the two places, and a real `bin` directory, the promotion journal names only the two roots, and the active generation is complete (for the direct layout: if `bin` is a real directory); worlds it does not accept it does not touch; the intent it records is the journal's list, or without one what the direct environment's ownership stamp or the active generation's install stamp lists |
| `Migration.Migrator.MigrateRepeatedly` | packaging/npm/migrate-legacy.js:345-434 | Any number of interrupted runs and one whole run reach the one goal exactly under that condition, which a caller can check before the first, on paths that bear rewriting twice, and record the extras the environment listed at the start; a further run changes nothing; otherwise every whole run throws |
| `Migration.GoalMeans` | packaging/npm/migrate-legacy.js:345-434 | The finished world file by file: links, the extras listed at the start as intent, every environment the same with the old path replaced in every text, no generation lost |
| `Migration.TakesUpExactly` | packaging/npm/migrate-legacy.js:345-390 | What a first run takes up: no target yet, and a complete pre-0.4 environment or an active generation of the source root with its own marker, with a list of extras that do not conflict |
| `Migration.GetsThroughExactly` | packaging/npm/migrate-legacy.js:233-270 | When a migration gets through, generation by generation: own markers of the source or the target and real `bin` directories everywhere, root marker and promotion journal naming only the two places, completeness of the active generation |
| `Migration.OnlyActiveComplete` | packaging/npm/migrate-legacy.js:253-262 | Whether a generation other than the active one is complete does not matter |
| `Migration.Migrator.MigrateDirect` | packaging/npm/migrate-legacy.js:391-433 | The direct layout from its journal on: the goal exactly if `bin` is a real directory, or still under way to the same goal |
| `Migration.Migrator.MigrateGenerational` | packaging/npm/migrate-legacy.js:304-343 | The generational layout from its journal on: the goal exactly when the metadata can be rewritten and the active generation is complete |
| `Migration.Migrator.RewriteMetadata` | packaging/npm/migrate-legacy.js:233-270 | Markers, scripts, promotion journal and root marker, in any order of generations and cut off anywhere, keep the same final tree; no generation is lost; as long as a promotion journal has not been rewritten, recovery at the target refuses |
| `Migration.Migrator.RewriteGeneration` | packaging/npm/migrate-legacy.js:233-262 | Marker first, then scripts: done means final; without an own marker of one of the two places, or without a real `bin`, it throws |
| `Migration.Migrator.RewriteGenerationScripts` | packaging/npm/migrate-legacy.js:101-112 | Scripts rewritten one by one in any order keep the same final form |
| `Migration.Migrator.LinkTarget` | packaging/npm/migrate-legacy.js:162-178 | The target link is made, found right, or refused without change |
| `Migration.Migrator.LinkSource` | packaging/npm/migrate-legacy.js:162-178 | The compatibility link is made, also over the old active link, or found right; a crash in between leaves no link |
| `Migration.Migrator.FinishGenerational` | packaging/npm/migrate-legacy.js:318-342 | Target link, intent, source link, check and journal end in the goal or can be resumed |
| `Migration.MovedTreeIsFinal` | packaging/npm/migrate-legacy.js:180-270 | Relocating a relocated tree changes nothing |
| `Migration.GoalIsFinal` | packaging/npm/migrate-legacy.js:345-390 | On the finished world there is nothing to migrate and a run is a no-op |
| `Migration.RecoverSiteIsRecovery` | packaging/npm/managed-venv.js:675-731 | Where every path names the place, recovery with its tests of paths, link destination and markers passes through the disks of plain recovery, call by call |
| `Migration.RecoveryCommutesWithRelocation` | packaging/npm/migrate-legacy.js:193-231 | With a prepared, a committed, a foreign or no promotion journal inside the root: recovery at the target of the relocated site refuses exactly where recovery at the source refuses, and otherwise passes through the relocated images of the same sites |
| `Migration.TestsMove` | packaging/npm/managed-venv.js:636-651 | Every test of recovery says of the relocated site, at the target, what it said at the source |
| `Migration.RelocatedRecovers` | packaging/npm/migrate-legacy.js:193-270 | For every site promotion can leave, recovery goes through after the relocation and ends in the image of its end before |
| `Migration.Migrator.RecoverTarget` | packaging/npm/managed-venv.js:675-731 | Recovery at the durable target with its tests, cut off anywhere: stops on a site of that sequence, ends on its last one, and refuses without change exactly where the sequence does |
| `Migration.GoalIsRelocation` | packaging/npm/migrate-legacy.js:193-343 | A finished generational migration is the relocated image of the site it started from |
| `Migration.MigrateThenRecover` | packaging/npm/migrate-legacy.js:193-343 | So recovery after the migration refuses or ends exactly as recovery before it, relocated |
| `VideoBackdrop.Backdrop.PlayNominal` | src/custback/backgrounds.py:1048-1175 | A decoder that reads, grabs, seeks by index and counts truthfully and reports any timestamps at all, known length, nondecreasing times: every picture is the frame its index names modulo the length; call i shows floor(elapsed * fps) if container timing is off after it and the believed duration was the length / fps after every earlier call; the counters then add up; if every frame is reported at one and the same time, all calls and any one more after each show the due frame if and only if no call shortens the believed duration, which the call times alone decide; and if every frame is reported at its own time and these are evenly spaced, every call follows them to 0.1 ms |
| `VideoBackdrop.Backdrop.PlayExact` | src/custback/backgrounds.py:1048-1175 | The same decoders: the calls compute the function `Play`, displayed + reused = calls, and displayed + skipped = last index + 1 unless an index went back |
| `VideoBackdrop.Backdrop.PlayAny` | src/custback/backgrounds.py:1048-1175 | Any decoder: no shown deadline is ahead of the clock, container timing once on stays on and then deadlines never go back, at most 32 reads and 14 grabs a call |
| `VideoSchedule.NominalCall` | src/custback/backgrounds.py:1048-1125 | Whatever is reported: while container timing stays off, reuse, promotion and grab-skip show the due frame, and a seek shows the frame the believed duration leads to |
| `VideoSchedule.DueExactly` | src/custback/backgrounds.py:940-954 | While container timing is off, the next call shows the due frame, whenever it is made, if and only if the believed duration is the length / fps |
| `VideoSchedule.SeekIndexIsDue` | src/custback/backgrounds.py:940-954 | With the right duration whole loops and phase give exactly the due index |
| `VideoSchedule.SeekGoesWrong` | src/custback/backgrounds.py:940-954 | With any other duration some seek, however late, lands elsewhere |
| `VideoSchedule.DurationAfter` | src/custback/backgrounds.py:732-751 | While container timing stays off, the believed duration changes only at the end of the file: to the length / fps, or to what the last mark suggests |
| `VideoSchedule.DurationIsRight` | src/custback/backgrounds.py:732-751 | There it becomes right if and only if no mark contradicts the frame rate |
| `VideoSchedule.PlayIsDue` | src/custback/backgrounds.py:1048-1175 | The whole-run form of the first row, for the function `Play` |
| `VideoSchedule.NominalStale` | src/custback/backgrounds.py:1066-1082 | In nominal timing the lateness estimate is exactly the distance to the due frame |
| `VideoSchedule.DeadlineIsDue` | src/custback/backgrounds.py:832-855 | A nominal deadline has passed exactly when the wall clock asks for that frame or a later one |
| `VideoSchedule.SeekPhase` | src/custback/backgrounds.py:944-954 | Loops counted in seconds and in frames agree, and so do their phases |
| `VideoSchedule.NextIndex` | src/custback/backgrounds.py:799-830 | The index after a frame of a looping file |
| `VideoSchedule.LearnedKeeps` | src/custback/backgrounds.py:701-790 | No timestamp turns container timing off or makes step or duration nonpositive |
| `VideoSchedule.KeptExactly` | src/custback/backgrounds.py:739-790 | Which timestamps are believed, if and only if: after a wrap one near the origin; for a later frame than the mark one at a plausible distance from it, 0.1 ms to a minute a frame; for the same frame one near it; for an earlier frame none |
| `VideoSchedule.PaceExactly` | src/custback/backgrounds.py:751-781 | A believed later timestamp turns container timing on and sets pace and length by it; an implausible one changes nothing, so the next is still compared with the last good one |
| `VideoSchedule.MissingStampFallsBack` | src/custback/backgrounds.py:847-855 | With container timing on, a frame without a believed timestamp is due one claimed interval after the shown one |
| `VideoSchedule.LandsByTime` | src/custback/backgrounds.py:956-985 | A seek by time counts if and only if the reported time is within 50 ms, two claimed intervals or two steps of the one asked for; otherwise the index is sought |
| `VideoSchedule.StaleMeans` | src/custback/backgrounds.py:1072-1083 | The lateness estimate at the learnt pace, limited to 240 frames a second |
| `VideoSchedule.NothingDueAfter` | src/custback/backgrounds.py:1102-1150 | After every call under container timing the next frame is not due yet, whatever was reported |
| `VideoRuns.StaysDueExactly` | src/custback/backgrounds.py:732-751 | If every frame is reported at the same time: after this call the next one shows the due frame, whenever it is made, if and only if this call does not newly show the last frame of the file out of turn or with the last reliable mark away from its first frame, which can be told before the call |
| `VideoRuns.PlaysDueExactly` | src/custback/backgrounds.py:1048-1175 | Whole playbacks of such a file: every call shows the due frame, and so would one more after each, whenever made, if and only if none of the calls does that, a condition on the call times alone |
| `VideoRuns.FlatPlaysDueExactly` | src/custback/backgrounds.py:1048-1175 | The same from the first call on, which itself never shortens it |
| `VideoRuns.BeliefBreaksExactly` | src/custback/backgrounds.py:732-751 | The call at which the believed duration goes wrong, if and only if |
| `VideoRuns.ConstantStampsFreeze` | src/custback/backgrounds.py:732-751 | Such a playback: four frames at one a second; a skip to the last frame at 3 s makes the file look 1 s long, the call at 20 s shows frame 80, and so does every call before 81 s |
| `VideoContainer.OnTimeExactly` | src/custback/backgrounds.py:701-855 | A file that reports its own increasing frame times, whatever rate it claims: all calls at all times show the frame due on the file's own clock, its successor at most 0.1 ms late, if and only if the frames are evenly spaced |
| `VideoContainer.UnevenFileHurries` | src/custback/backgrounds.py:773-781 | A variable-rate file, frames at 0, 0.5 and 1.5 s (`UnevenFileExists`): from its second loop on frame 1 follows frame 0 after 0.1 ms instead of 0.5 s |
| `VideoContainer.EvenCall` | src/custback/backgrounds.py:832-855 | With evenly spaced frames one call keeps everything learnt true and is on time |
| `VideoContainer.EvenPlay` | src/custback/backgrounds.py:1048-1175 | And so does every call of a playback |
| `VideoContainer.EvenSeeked` | src/custback/backgrounds.py:940-1000 | With evenly spaced frames a seek by time lands on the due frame |
| `VideoContainer.WrongDurationSeeksWrong` | src/custback/backgrounds.py:940-954 | While another length than that of the file is believed in, some call, however late, shows a frame that is not due |
| `VideoContainer.FirstLoopTracks` | src/custback/backgrounds.py:701-790 | Called when its frames are due, the first loop of any such file is followed exactly, whatever the spacing |
| `VideoContainer.PrefetchTracks` | src/custback/backgrounds.py:701-790 | What a look-ahead teaches: the step from the frame before, and the length at that pace |
| `VideoContainer.SameEstimates` | src/custback/backgrounds.py:773-781 | All look-aheads of a loop teach one length only if the frames are evenly spaced |
| `VideoContainer.EvenDeadline` | src/custback/backgrounds.py:832-855 | With evenly spaced frames a look-ahead frame is due when the file's clock says, or 0.1 ms after the shown one |
| `VideoBackdrop.Backdrop.Show` | src/custback/backgrounds.py:1127-1175 | Every call costs at most 32 reads and 14 grabs and returns only a picture that passed validation, for any decoder at all; on an exact one it shows what `Next` says |
| `VideoBackdrop.Backdrop.AdvanceToTime` | src/custback/backgrounds.py:1048-1125 | One call: nothing, the first frame, or catching up; after a failure no decoder call is made for one frame's length; on an exact decoder it computes `Next` within the work bound |
| `VideoBackdrop.Backdrop.CatchUp` | src/custback/backgrounds.py:1072-1125 | Reuse, promotion, skip or seek as the lateness asks; no seek while the length is unknown; a failure is counted and postpones the next attempt by one frame's length |
| `VideoBackdrop.Backdrop.StaleIsDue` | src/custback/backgrounds.py:1066-1082 | The estimate is the distance to the due frame, whose deadline has passed |
| `VideoBackdrop.Backdrop.PromoteDue` | src/custback/backgrounds.py:1100-1110 | At most eight promotions, each of a due frame, deadlines never going back under container timing |
| `VideoBackdrop.Backdrop.PromotePending` | src/custback/backgrounds.py:857-869 | Promotion shows the look-ahead frame not before its deadline, and under container timing strictly advances the deadline |
| `VideoBackdrop.Backdrop.DeadlineAdvances` | src/custback/backgrounds.py:832-855 | Under container timing every look-ahead frame, whatever its timestamp, is due strictly after the shown one |
| `VideoBackdrop.Backdrop.SkipStaleNominal` | src/custback/backgrounds.py:871-938 | For any timestamps the grab-skip lands exactly on the skipped-to frame; on a failure, with any decoder, what is on screen and the look-ahead stay as they are |
| `VideoBackdrop.Backdrop.GrabStale` | src/custback/backgrounds.py:895-910 | Offsets two to steps are grabbed, across one loop boundary; success means one working grab for each, and on an exact decoder ends just behind the wanted frame |
| `VideoBackdrop.Backdrop.SeekRead` | src/custback/backgrounds.py:956-988 | Seek by time, checked, else by index: at most two reads, and on an exact decoder the frame of the landing |
| `VideoBackdrop.Backdrop.SeekToElapsed` | src/custback/backgrounds.py:940-1012 | The landing is shown, numbered by the whole loops before it; a failed seek leaves the last good picture, its number and the look-ahead as they are |
| `VideoBackdrop.Backdrop.PrefetchNext` | src/custback/backgrounds.py:799-830 | At most three reads; on an exact decoder the look-ahead is the next frame, over the loop boundary too; whatever length was advertised, or none, the first end teaches the right one, and a frame beyond it corrects an understated one; success and only success clears the retry pause |
| `VideoBackdrop.Backdrop.ReadNext` | src/custback/backgrounds.py:799-820 | Retry, then rewind: the frame read and its index; the end of the file gives its length and duration whatever was believed before |
| `VideoBackdrop.Backdrop.ReadTwice` | src/custback/backgrounds.py:799-812 | A failed read is retried from the frame's own position, for any decoder |
| `VideoBackdrop.Backdrop.StorePending` | src/custback/backgrounds.py:701-797 | The look-ahead keeps the frame and learns from its timestamp; container timing is never turned off |
| `VideoBackdrop.Backdrop.LearnTimestamp` | src/custback/backgrounds.py:712-790 | The branches on one timestamp, in order, compute `Learned` |
| `VideoBackdrop.Backdrop.DecodeFirst` | src/custback/backgrounds.py:1014-1046 | The first frame is shown, the clock starts at this call, the next frame is prefetched |
| `Capture.AtMostOneReader` | src/custback/capture.py:552-581 | In every interleaving at most one reader runs, it is the newest generation's, and none runs between the join of the previous one and the start of its replacement |
| `Capture.StepKeepsOneReader` | src/custback/capture.py:1125-1271 | Every single step of any thread keeps that |
| `Capture.OnlyCurrentPublishes` | src/custback/capture.py:902-963 | The slot changes only by a frame of the current generation, numbered next, and not once closed |
| `Capture.FramesAreConserved` | src/custback/capture.py:902-963 | In every reachable state: frames read = delivered + dropped + the unread one |
| `Capture.DeliveriesAreNewest` | src/custback/capture.py:1287-1309 | Over every run delivered sequences strictly increase, each is the newest at delivery, and equals deliveries so far plus drops so far |
| `Capture.ReopensArePaced` | src/custback/capture.py:1157-1263 | In a runtime outage the k-th open starts no earlier than the stall threshold plus the first k backoffs after the baseline; the clock reading it was decided on is within the recovery timeout, though the open itself may start later; the baseline is the last frame unless one raced with the declaration of the outage |
| `Capture.ReopensAreBounded` | src/custback/capture.py:1157-1271 | So the number k of opens of one outage satisfies 4k < timeout - stall + 8.5 from the third on |
| `Capture.BackoffSumGrows` | src/custback/capture.py:1157-1160 | The backoffs sum to 0.5, 1.5, and 3.5 + 4(k - 3) from the third on |
| `Capture.RacedReopenIsEarly` | src/custback/capture.py:1162-1218 | A concrete run: a frame that arrives between the silent snapshot and the declaration is followed by an open half a second later |
| `Capture.SilentReaderIsReplaced` | src/custback/capture.py:1220-1233 | In every reachable outage a reader that still runs has given no frame, and is stopped and rescheduled exactly once it is as old as the stall threshold |
| `Capture.StallStartsOutage` | src/custback/capture.py:1199-1238 | From every state in which a running reader has been silent for the stall time: controller steps and the end of the reader lead to the outage, dated from the last frame, with the next open due in half a second |
| `Capture.OutageIsRecovered` | src/custback/capture.py:1239-1263 | From there, within the timeout, a working open gives one running reader of the next generation, and its first frame ends the outage |
| `Capture.FailedOpenWaits` | src/custback/capture.py:1239-1269 | A failing open asks for the next one after 0.5, 1, 2, then 4 seconds |
| `Capture.FirstOpenIsPrompt` | src/custback/capture.py:1239-1269 | The very first open is tried at once, and if it fails again after half a second |
| `Capture.FatalIsFinal` | src/custback/capture.py:1116-1123 | After a fatal error, whatever the threads do: it is never replaced, no generation is added, nothing is delivered, and no open begins except one the controller had already committed to |
| `Capture.ClosedIsFinal` | src/custback/capture.py:1380-1397 | Once closed, no reader is adopted, no frame taken or handed out, and no outage begins |
| `Capture.OneOpenAfterFatal` | src/custback/capture.py:1239-1256 | A concrete run in which a read latches the outage after the controller's last look and that one open still happens |
| `Capture.StuckReaderIsLast` | src/custback/capture.py:1125-1155 | After a failed join nothing is opened any more |
| `Capture.TimeoutLatches` | src/custback/capture.py:1179-1197 | Once a controller step or a read has found the timeout passed, that thread's next step finds or latches a fatal error, whatever happens in between |
| `Capture.OverdueOutageEnds` | src/custback/capture.py:1179-1197 | A read or a controller step that begins when the outage has lasted the timeout leaves a fatal error for good, whatever other threads do before its next step and after it |
| `Capture.StepKeepsPaced` | src/custback/capture.py:1157-1271 | Every step keeps the relation of backoff index, appointment and opens to the outage's baseline |
| `CaptureWorker.Worker.ControllerLoop` | src/custback/capture.py:1272-1284 | The controller loop over the object's fields, other threads doing anything between any two sections: the fields are always those of a run of the state machine, which every turn advances, so at most one reader thread runs and frames read = delivered + dropped + unread |
| `CaptureWorker.Worker.ControllerStep` | src/custback/capture.py:1199-1271 | One controller step with all its branches makes the machine's steps, one per section |
| `CaptureWorker.Worker.StopReader` | src/custback/capture.py:1125-1156 | Signal, wait as long as there is patience; then either the reader is over and the reference dropped, or the reference stays and a fatal error is latched |
| `CaptureWorker.Worker.TryToOpen` | src/custback/capture.py:1239-1263 | Decide, open, adopt, start, with every failure leading where the machine goes |
| `CaptureWorker.Worker.BeginOpen` | src/custback/capture.py:1248-1252 | On the object's fields: an open of a runtime outage begins with the clock past recovery start + stall + backoffs, and the reading it was decided on before the timeout |
| `CaptureWorker.Worker.OneReaderRuns` | src/custback/capture.py:552-581 | On the fields, at every moment: at most one running thread, which is the referenced one of the current generation, and none while a device is adopted |
| `CaptureWorker.Worker.FramesAddUp` | src/custback/capture.py:902-963 | On the fields, at every moment: frames read = delivered + dropped + unread |
| `CaptureWorker.Worker.OpensArePaced` | src/custback/capture.py:1157-1263 | On the fields, whenever an open has been decided on: the pacing and the baseline |
| `CaptureWorker.Worker.Others` | src/custback/capture.py:902-963 | Any sequence of publications, reader ends, reads, closes and passing time keeps the fields in step and leaves the controller where it is |
| `CaptureWorker.Worker.Publish` | src/custback/capture.py:902-963 | The publication of a running reader, current or stale |
| `CaptureWorker.Worker.ContinueReading` | src/custback/capture.py:1296-1309 | The consumer gets the newest unread frame, with a larger number than any before, nothing, or the latched error |
| `CaptureWorker.Worker.TakeSnapshot` | src/custback/capture.py:1203-1238 | The snapshot's branches lead where the machine goes |
| `CaptureWorker.Worker.TryJoin` | src/custback/capture.py:1141-1155 | The reference is dropped exactly when the thread is over; giving up latches a fatal error and keeps it |
| `CaptureWorker.Worker.AdoptDevice` | src/custback/capture.py:552-581 | Exactly if the capture has not ended, the device becomes the next generation with its thread, without frames and without an appointment; otherwise nothing changes |
| `Cadence.Tracker.RecordSend` | src/custback/cadence.py:188-353 | A report is accepted exactly if it is consistent with the whole history; a refused one changes nothing; an accepted one leaves counters and window recomputable from the history, the window being the last at most 1024 events of the last two seconds unless it was pruned for a later time before |
| `Cadence.Tracker.Accepts` | src/custback/cadence.py:207-310 | The tests on remembered values accept exactly what fits every earlier event |
| `Cadence.Tracker.Prune` | src/custback/cadence.py:183-186 | The window stays exactly the events among the last 1024 never older than two seconds at a pruning |
| `Cadence.Tracker.Look` | src/custback/cadence.py:355-501 | A snapshot: counters recount the history; every rate times the span of the window is the number of its events; the window is what is at most two seconds old among the last 1024 when times do not go back; mismatch in whole numbers; negative times refused without change |
| `Cadence.Tracker.CountSend` | src/custback/cadence.py:311-352 | The counters after an accepted send |
| `Cadence.DescribeRecounts` | src/custback/cadence.py:355-501 | Last minus first sequence = unique - 1 + missing; missing counts the numbers in the shown range never shown; gaps count the shown numbers whose predecessor was not |
| `Cadence.RatesPartition` | src/custback/cadence.py:363-402 | Base-update rate plus reuse rate is the send rate |
| `Cadence.RatesAre` | src/custback/cadence.py:340-402 | A rate times the nanoseconds of the window is a thousand million times the occurrences after its first event |
| `Cadence.UniqueRateMeans` | src/custback/cadence.py:404-421 | The rate of new captures: those after the first, over the time between the capture of the first and of the last; zero without such a time |
| `Cadence.MismatchMeans` | src/custback/cadence.py:453-457 | The flag is on exactly with at least three events, a positive span and 10 * updates < 9 * transitions |
| `CadenceHistory.FitsByLast` | src/custback/cadence.py:272-310 | Only the last send and the last update matter for what is accepted |
| `CadenceHistory.WindowIsRecent` | src/custback/cadence.py:183-186 | Pruned last at the latest time, the window is the one recomputed from the full history |
| `CadenceHistory.EarlyPruneForgets` | src/custback/cadence.py:183-186 | A window pruned for a later time lacks an event that a recount two seconds after it still has |
| `CadenceHistory.AppendKeepsWindow` | src/custback/cadence.py:350-353 | Appending to a full window drops exactly the oldest event |
| `CadenceHistory.TotalsMove` | src/custback/cadence.py:311-330 | The incremental capture counters follow the recount |
| `CadenceHistory.MissingIsUnshown` | src/custback/cadence.py:310-316 | Missing is the number of unshown sequences between first and last shown |
| `CadenceHistory.MissingIsDropped` | src/custback/cadence.py:311-323 | If exactly the frames the capture delivered were shown, missing = dropped as of the last delivery - dropped before the first |
| `TarReader.NpmTarballFile` | scripts/release/verify-release.js:1076-1112 | The loop over offset and seen names terminates and computes the walk |
| `TarReader.NotTheEnd` | scripts/release/verify-release.js:1085-1093 | A block without an octal size ends the walk as missing only if it is all zeros, otherwise as an error |
| `TarReader.ReadsExactly` | scripts/release/verify-release.js:1076-1112 | On every ustar layout with arbitrary other header fields and padding, whole or cut after any byte: some data is returned exactly if it is the whole data of a regular entry of the wanted name and all regular entries up to it have safe, distinct names, names being decoded as UTF-8 with replacement characters |
| `TarReader.RoundTrip` | scripts/release/verify-release.js:1076-1112 | Every regular entry of an archive with safe, distinct names reads back |
| `TarReader.AbsentIsMissing` | scripts/release/verify-release.js:1076-1112 | A name no regular entry has is reported missing |
| `TarReader.ReadsEntries` | scripts/release/verify-release.js:1083-1109 | The walk over bytes is the walk over entries |
| `TarReader.HeaderReads` | scripts/release/verify-release.js:1083-1098 | Name, prefix, size and type of a header read back, for every octal size field with blanks and NULs around the digits |
| `TarReader.SizeIsSafe` | scripts/release/verify-release.js:1092-1093 | Twelve octal digits are always a safe integer, so the "too large" error cannot occur |
| `TarReader.OctalIsDigitSum` | scripts/release/verify-release.js:1088-1092 | A size is the sum of its digits times the powers of eight of their places |
| `TarReader.BlocksHold` | scripts/release/verify-release.js:1109-1109 | Data is padded to the first multiple of 512 that holds it |
| `TarReader.Utf8ReadsEncoded` | scripts/release/verify-release.js:1070-1074 | Every Unicode text encoded as section 3 of RFC 3629 says is decoded again |
| `TarReader.FirstPointMeans` | scripts/release/verify-release.js:1070-1074 | Whatever is decoded stands encoded in front, or is a replacement character, and never a surrogate |
| `TarReader.UpToNulPads` | scripts/release/verify-release.js:1070-1074 | A NUL-padded field reads back |
| `TarReader.AsciiIsItself` | scripts/release/verify-release.js:1070-1074 | Decoding leaves ASCII names and sizes as they are |
| `SafePaths.SafeMeansPlain` | scripts/release/verify-release.js:1099-1104 | The path test passes exactly `.`, `./` and chains of segments that each name something, with at most one closing slash |
| `CanonicalJson.CanonicalDecides` | scripts/release/phase6-evidence.js:210-224 | Two values have the same canonical text exactly if they are equal up to the order of object members at every level |
| `CanonicalJson.CanonicalReads` | scripts/release/phase6-evidence.js:210-224 | The canonical text read back is the value up to the order of members, and in every object the names ascend by code units |
| `CanonicalJson.LessIsBefore` | scripts/release/phase6-evidence.js:220-220 | The order is: up to some unit the names agree, and there the first one ends or has the smaller unit |
| `CanonicalJson.SortAscends` | scripts/release/phase6-evidence.js:220-220 | Distinct names come out ascending in that sense |
| `CanonicalJson.CanonicalIsPrinted` | scripts/release/phase6-evidence.js:210-224 | The canonical text is the value with sorted members printed in order; it throws exactly where some part has no JSON text |
| `CanonicalJson.NormalDecides` | scripts/release/phase6-evidence.js:219-222 | Sorted forms are equal exactly for values equal up to member order |
| `CanonicalJson.SortedIsUnique` | scripts/release/phase6-evidence.js:220-220 | There is one sorted order of given members |
| `CanonicalJson.SortSorts` | scripts/release/phase6-evidence.js:220-220 | Sorting distinct keys by code units gives strictly increasing keys |
| `CanonicalJson.SortKeeps` | scripts/release/phase6-evidence.js:220-220 | Sorting keeps exactly the members |
| `JsonText.PrintReads` | scripts/release/phase6-evidence.js:210-224 | A printed value with a delimiter behind it reads back, in the grammar of RFC 8259 without blanks, as the same value and the same rest |
| `JsonText.PlainIsItself` | scripts/release/phase6-evidence.js:210-213 | Nothing is escaped that need not be |
| `JsonText.EscapesAre` | scripts/release/phase6-evidence.js:210-213 | The seven short escapes, and four lower-case hexadecimal digits for every other control character and lone surrogate |
| `JsonText.EscapeIsPaired` | scripts/release/phase6-evidence.js:210-213 | The text has no lone surrogate, so it can be encoded in UTF-8 |
| `JsonText.PrintInjective` | scripts/release/phase6-evidence.js:210-224 | So of two printed values with a delimiter behind, equal texts mean equal values and equal rests |
| `JsonText.QuoteInjective` | scripts/release/phase6-evidence.js:210-213 | The same for quoted strings with anything behind |
| `JsonText.UnescapeEscaped` | scripts/release/phase6-evidence.js:210-213 | Escaping is undone by reading, surrogate pairs and lone surrogates included |
| `JsonText.EscapeIsEscaped` | scripts/release/phase6-evidence.js:210-213 | Between the quotation marks only what section 7 of RFC 8259 allows |
| `ConfigMerge.MergePatch` | src/custback/config_merge.py:9-37 | The recursive method with its loop, in any order of items, computes the merge |
| `ConfigMerge.MergeItems` | src/custback/config_merge.py:27-37 | The loop over the patch's items |
| `ConfigMerge.StandardMerge` | src/custback/config_merge.py:9-37 | The merge equals section 2 of RFC 7396 if and only if every null in the patch names a member of the object it is merged into |
| `ConfigMerge.ComposeExactly` | src/custback/config_merge.py:9-37 | For patches without null: merging p then q equals merging merge(p, q), for all targets, if and only if q holds no object where p holds something else |
| `ConfigMerge.MergesCompose` | src/custback/config_merge.py:9-37 | The direction of that used in practice, for one target |
| `ConfigMerge.MergesDiffer` | src/custback/config_merge.py:9-37 | Otherwise a target that tells the two apart |
| `ConfigMerge.MergeIsIdempotent` | src/custback/config_merge.py:9-37 | A patch without null, applied again, changes nothing |
| `ConfigMerge.FreshMerge` | src/custback/config_merge.py:24-37 | Merged into anything but an object a patch, nulls included, is its own result |
| `ConfigMerge.MergeKeeps` | src/custback/config_merge.py:24-37 | Member by member: what the patch does not name stays, null removes a known member and is kept for an unknown one, an object is merged, anything else replaces |

The lifetime counters of `Cadence.Tracker` are grouped into two records, `Totals` and `Tally`, where the
program has separate fields. `Capture.History` and the ghost fields of the classes are records the
program does not keep.

## Left out

- Process spawning, pip, virtual-environment creation, CUDA and MediaPipe probing, `doctor`, command lines and logging: no provable core; environment validation is an arbitrary boolean.
- Pid reuse, inode reuse, wrong liveness answers and files planted by others in the lock directory: assumed away.
- Lock kinds written by older versions (directory and anonymous locks, `packaging/npm/managed-venv.js:913-945`): the states modelled are those this code reaches.
- InstallLockTiming.PunctualMutualExclusion: that a breaker is done within the settle delay of its look, and that a lock was linked long before its record's fifteen minutes are over, are assumptions on scheduling which the program cannot enforce; the waits themselves are its own.
- VideoContainer.OnTimeExactly: for unevenly spaced frames it is shown that some calls are wrong, not which ones; `FirstLoopTracks` follows the first loop only for calls made when its frames are due.
- InstallLock.LoneWaiterEnters: the age of a dead owner's record and the waiter's deadline are readings given with each call, so the bound counts calls, not seconds.
- InstallLockLoop.Waiter.WithInstallLock: stated for others standing still; interleaving is the subject of `InstallLock`. Sleeps are not modelled, and the loop runs for a given number of turns because the source's has no bound.
- The committed-journal fallback for a vanished new generation (`packaging/npm/managed-venv.js:696-710`) is in recovery's function and method, but only disks that promotion can leave are shown to converge.
- Purge (`retireVerifiedPath`, `inspectPurgeState`): its guarantees depend on others changing paths between calls.
- ManagedRuntime.Runtime.Cleanup: the number of older generations to retain is zero, as the installer calls it, so the order by modification time is not modelled.
- ManagedRuntime.Runtime.RemoveTree: what a recursive removal has taken when it stops is arbitrary for completeness, marker and stamp, the files this code looks at; the rest of the tree is not modelled.
- Migration.Migrator.Migrate: asks of the paths it exchanges that rewriting a script twice changes nothing more (`Steady`), without which resuming can go wrong (`DirectResumesExactly`, `GenerationalResumesExactly`); a run that is not interrupted under other paths is not described. File modes and sizes, the same-filesystem check and malformed journals are not modelled; a journal is one this code wrote for these two roots. Directory entries that are not generations are ignored by the program and absent here. The intent's time stamp is not part of the world.
- Migration.RecoveryCommutesWithRelocation: for a site in which nothing names the target yet, as before a migration; what may be there besides are names of neither place.
- PathRewrite.RewriteIdempotent: a script is the text it decodes to; a file with a NUL byte, a file over the size limit and a link, which the program skips, are the `Opaque` case of `Migration`. That the first rewrite of a file with invalid UTF-8 also replaces its invalid bytes is not modelled.
- VideoBackdrop.Backdrop.PlayNominal: needs the length to be known and right from the start; with an unknown length only `PlayAny` applies until the end of the file reveals it. For reports that are neither one time for all nor each frame's own, nothing is said about which frame is shown once container timing is on.
- Floating-point rounding and the 1e-9 slack of the scheduler's comparisons: times are exact reals. Picture work, colour contracts and fitting are not modelled.
- Capture.FatalIsFinal: an exception inside the controller itself, other than from opening, is not modelled.
- The second stop of the worker in `close` (`src/custback/capture.py:1393-1397`): by then the controller, which stops its reader when it quits, is over. Read-failure counters, rate warnings, negotiation and geometry are not modelled; a rate error is a reader's fatal error.
- Percentiles of `Cadence` snapshots (`_nearest_rank`, `_recent_deltas_ms`, jitter) and the pacing-event counters: they would only add easy members.
- Gzip decompression and reading the file: the archive is a sequence of bytes. A wanted name is a sequence of code points.
- JSON numbers are identified with their printed form, so 0 and -0, which print alike, are one number. Non-finite numbers and values outside JSON are the one case `Foreign`.
- ConfigMerge.MergePatch: the order of members and the deep copying that keeps inputs unshared are not visible on values.
- Release-evidence validators, qualification reports, the two-host set-up, device identity probing, `AccelerationState` and `MatteRolloutTelemetry`: single-branch checks, foreign calls or small latches.
