# A verified model of the warden agent

The warden is a server agent. It runs jobs that arrive with its heartbeats, backs up and migrates
site directories as tar archives, manages the files of a site, hands out one-time archive downloads,
and does a number of smaller jobs: counting cache hits, suspending sites, printing and reading
database credentials, flushing cache keys, measuring processor use, updating itself. This project
models these parts in Dafny and proves what they keep, over every input, every run and every
interleaving.

`dafny verify dfyconfig.toml` checks everything.

| file | what it models |
|---|---|
| `JobProtocol.dfy`, `JobExecutor.dfy` | the job executor, its goroutines and the heartbeat goroutine as a transition system, and the executor object whose methods are paths of it |
| `JobTracker.dfy` | the record of finished jobs behind status queries |
| `FileSystem.dfy` | an in-memory disk; each method is one system call and may fail at any time |
| `Text.dfy`, `Paths.dfy`, `LineScanner.dfy` | the Go library operations the code relies on: splitting, trimming, path cleaning, scanning lines |
| `TarArchive.dfy`, `RoundTrip.dfy`, `ArchiveModes.dfy`, `SiteBackup.dfy` | the walk that writes a tree, the loop that extracts it, the two together, and what becomes of modes |
| `PathResolution.dfy`, `FileManager.dfy`, `FileChanges.dfy` | the file manager, one system call at a time |
| `ArchiveTokens.dfy`, `ArchiveStore.dfy` | download tokens under a running clock, the registry object, the size-capping writer |
| `CacheLog.dfy`, `CacheCuts.dfy` | the incremental cache log collector; what becomes of the counts when a snapshot ends inside a line |
| `Vhost.dfy` | suspending and unsuspending a site, under interleaving |
| `Credentials.dfy` | database names, the credentials file and its three readers |
| `RedisFlush.dfy` | SCAN and DEL through redis-cli's text output |
| `Cpu.dfy` | processor percentages from 64-bit counters |
| `Version.dfy` | version comparison |

Three conventions run through the project. Operations that change state are methods of classes or on
a `Disk`; failing calls are nondeterministic or given as parameters, so every contract covers them. A
`history` field of the disk, a `log` of the protocols and the `Trace` of a flush record what was
true in between, so that safety is claimed for every moment and not for the end alone. The disk also
counts the calls that failed for outside reasons (`faults`) and the removals that failed
(`failedRemovals`): a clause for unchanged `faults` says exactly when the operation succeeds if nothing
outside it goes wrong. Where several parties run at once, they are a transition system, and a schedule
is any sequence of actions.

## Where the code does not do what it seems to promise

Each of these is a lemma, with the exact condition where there is one.

- A restored files backup lands one level above the docroot it was taken from; an emptied docroot
  comes back exactly when the backup was of an empty one (`SiteBackup.RestoreRebuildsDocrootOnlyIfEmpty`).
- An archive comes back exactly when the tree holds only directories and files of at most 4 GiB and
  no relative path contains the two characters `..`, inside a name included
  (`RoundTrip.RoundTripExactlyOnPlainTrees`). Longer files are cut without an error.
- The prefix guard after the `..` guard rejects nothing, unless the destination is `/`, where it
  rejects everything but `/` itself (`TarArchive.StringGuards`).
- Making a directory reports success when a file stands at the path
  (`FileManager.MkdirLeavesDirectoryUnlessFile`).
- An atomic write may not be atomic exactly when the target does not exist and its name is `.filemgr-`
  followed by a 32-bit decimal number: the temporary file's random name may then be the target's
  (`FileChanges.CollisionBreaksAtomicity`, and `FileChanges.ReplaceFile` for whole writes).
- The stray scrub takes an unexpired archive when its builder rested for more than `MaxAge` before the
  stamp, or paused for more than twice that before its last write
  (`ArchiveTokens.RestBeforeStampLosesArchiveExactlyWhenLong`, `ArchiveTokens.PauseLosesArchiveExactlyWhenLong`).
- A snapshot of the cache log that ends inside a line makes one line too many. The counts are right
  exactly when the cut falls at an end of a request line, before its newline, or where the status has
  the class of the whole one already; else the request is lost, or another class or another domain is
  charged (`LineScanner.CutIsSafeExactlyAfterNewline`, `CacheCuts.CutKeepsCountsExactly`,
  `CacheCuts.AnyCutKeepsCountsExactly`).
- A line of 64 KiB in the cache log stops the counting until the log shrinks. Counts whose push fails
  are not sent again. A rotation is missed when the new file is not smaller than what was read of the
  old one (`CacheLog.TooLongLineStopsCounting`, `CacheLog.ReceivedAllExactlyWhenPushesWorked`,
  `CacheLog.RotationIsHarmlessExactlyWhenNoticed`, `CacheCuts.UnnoticedRotationLosesExactly`).
- Overlapping suspend and unsuspend jobs can leave the site served and its suspended page beside it;
  the order of four of their calls decides. Suspending a suspended site again without a domain writes
  a page for no domain (`Vhost.OverlapLeavesBoth`, `Vhost.OverlapDecidedByFourCalls`,
  `Vhost.SuspendReplaces`).
- Two overlapping suspends for different domains can leave a page mixed from both
  (`Vhost.OverlapLeavesMixedPage`, `Vhost.OverlapMixesPagesExactly`); with one domain they cannot
  (`Vhost.OneDomainLeavesItsPage`).
- Migration looks for the site's database under a name that is the created one only when the first 16
  characters of the site ID need no replacing, so never for a UUID
  (`Credentials.MigrationFindsDatabaseExactlyWhenPlain`). The comment in `sanitizeID` says that hyphens
  are stripped before the cut; the code replaces them by underscores, and so does the model.
- A cache key with a newline in it is deleted by line: other names are deleted instead of it, and these
  can be another site's keys, exactly when a line is one (`RedisFlush.NewlineKeyDeletesAnothers`,
  `RedisFlush.FlushSparesOthersExactly`).
- The processor percentage is clamped to 100 exactly when busy or idle time went back
  (`Cpu.ClampActsExactlyOnStepBack`). A site whose counter could not be read at start-up is charged
  its whole past as well, exactly when that was not 0 (`Cpu.ChargesExactlyWhenSeedRead`).
- A version with four parts reads as if its third were 0, and a part that is not a plain numeral, as in
  `v1.2.3` and `1.2.3-rc1`, as 0 (`Version.FourthPartDropsThird`, `Version.ReadAsNumbersExactly`).
- The clone reader does not ask for the scanner's error, so after a line that is too long it can return
  credentials that the site ID itself sets (`Credentials.CloneIsMisledExactly`).
- The cache flush counts keys as deleted by redis-cli's exit status, which is 0 for an error reply too
  (`RedisFlush.HonouredExactly`).
- A job that runs again under the same ID is answered with the result of its last run
  (`JobTracker.Tracker.Get`).

## Model

| member | source | states |
|---|---|---|
| JobProtocol.InvKept | internal/jobs/executor.go:81-113 | every step of every goroutine keeps the executor's invariant: slots taken are the goroutines between acquire and release and at most four, the active IDs are exactly those of unfinished goroutines, no two unfinished goroutines share an ID, each ID's history is one whole run after another, every install so far was quiet |
| JobProtocol.InvAlways | internal/jobs/executor.go:81-113 | that invariant holds after every schedule, duplicates inside a batch included |
| JobProtocol.ClaimKeepsActive | internal/jobs/executor.go:87-95 | claiming an ID that is not active keeps the active set exact and the IDs of unfinished goroutines distinct |
| JobProtocol.GoKeepsSlots | internal/jobs/executor.go:96-98 | acquire and release keep the slot count equal to the number of goroutines in between, never over four |
| JobProtocol.Accounting | internal/jobs/executor.go:87-111 | for each ID and each stage, acceptances equal the times the stage was reached, plus one if a run is under way that has not come that far |
| JobProtocol.RunsOfOneIdNeverOverlap | main.go:294-302 | between two acceptances of an ID lie, in order, its record, the return of its report attempt, the release of its slot and of its ID |
| JobProtocol.InstallsAreQuiet | internal/heartbeat/heartbeat.go:157-172 | at every install, every run accepted before had reported and freed its ID: nothing queued, running or reporting |
| JobProtocol.GoDecreases | internal/jobs/executor.go:95-111 | every goroutine step brings the drain measure down by exactly one |
| JobProtocol.SomeoneCanGo | internal/jobs/executor.go:95-101 | no deadlock: while any ID is active some goroutine has an enabled step, even when all slots are taken |
| JobProtocol.Drains | internal/jobs/executor.go:95-111 | from every good state there is a schedule, as long as the measure, after which no ID is active and all slots are free |
| JobProtocol.EveryScheduleDrains | internal/jobs/executor.go:95-111 | whatever the scheduler picks, the steps taken use up the measure one by one, and nobody can go exactly when everything has drained |
| JobExecutor.Executor.constructor | internal/jobs/executor.go:57-66 | a new executor is the initial state |
| JobExecutor.Executor.ActiveJobCount | internal/jobs/executor.go:70-74 | the number of active IDs; it is 0 exactly when no goroutine is unfinished |
| JobExecutor.Executor.Advance | internal/jobs/executor.go:95-111 | one statement of a job's goroutine is one step of the transition system, or none when it has to wait |
| JobExecutor.Executor.ClaimNext | internal/jobs/executor.go:87-95 | one critical section of the batch loop: an ID that is active changes nothing, any other is claimed and gets a new, queued goroutine; it is the claim step of the system |
| JobExecutor.Executor.ProcessJobs | internal/jobs/executor.go:81-113 | dispatching a batch, other goroutines running in between: every job of it whose ID was not active gets a goroutine, nobody else does, and earlier goroutines keep their IDs; it is a run of the system that installs nothing |
| JobExecutor.Executor.Decided | internal/updater/updater.go:30-37 | the update goes ahead exactly when the version is newer, the count handed in is 0 and the download works |
| JobExecutor.Executor.CheckAndUpdate | internal/heartbeat/heartbeat.go:157-166 | counting, downloading while others run, deciding: it installs exactly when nothing was active at the count, and then nothing is active at the install |
| JobExecutor.Executor.SendHeartbeat | internal/heartbeat/heartbeat.go:123-172 | a whole heartbeat response, update before dispatch: every job whose ID was not active is started and no other; it is a run of the system and keeps the invariant |
| JobExecutor.NothingActiveAtInstall | internal/heartbeat/heartbeat.go:157-166 | a count of zero is still true at the decision: only the heartbeat goroutine adds IDs |
| JobTracker.RecordKeepsExact | main.go:60-71 | storing and evicting keep the map exact: an ID is there iff no later call came over an hour after its last one, and holds that call's result |
| JobTracker.RememberedForAnHour | main.go:60-80 | with a clock that does not run back, remembered means: the latest call of any job is at most an hour after one of this job's |
| JobTracker.Tracker.Evict | main.go:66-70 | the eviction loop, in any order, keeps exactly the entries at most an hour old |
| JobTracker.Tracker.Record | main.go:60-71 | one call keeps the map exact for the longer history |
| JobTracker.Tracker.Get | main.go:74-81 | the last completion if remembered, else RUNNING with no message |
| Text.SplitOfJoin | internal/filemgr/filemgr.go:97-101 | splitting at slashes undoes joining, for names free of them |
| Text.HasDotDotJoin | internal/backup/restore.go:149 | a relative path contains `..` exactly when one of its names does |
| Text.DotDotAnywhere | internal/backup/restore.go:149 | any text with two dots in a row is found, wherever they stand, inside a name included |
| Text.DotDotSplits | internal/backup/restore.go:149 | and what is found has them |
| Text.TrimSpaceFixesExactlyTrimmed | internal/filemgr/filemgr.go:89 | trimming leaves a text alone exactly when neither end is white space |
| Text.TrimSpacePadded | internal/filemgr/filemgr.go:89 | trimming takes all white space around a text off |
| Text.TrimSpaceTakesBlank | internal/filemgr/filemgr.go:89 | and it takes nothing but white space, off the two ends |
| Paths.CleanUnderDirectory | internal/filemgr/filemgr.go:102 | cleaning a clean directory joined with a text free of `..` components gives the directory and the names in the text |
| Paths.CleanKeepsNames | internal/backup/restore.go:153 | cleaning a relative name free of `..` keeps its names |
| Paths.KeptOfOne | internal/filemgr/filemgr.go:102 | empty components and `.` are dropped, every other component is kept in its place |
| FileSystem.WithDirsSucceeds | internal/backup/restore.go:160 | making a path of directories works exactly when no file stands on the way |
| FileSystem.RenamedAt | internal/filemgr/fs_mutate.go:49 | a rename moves exactly the subtree and changes no other path |
| FileSystem.RenamedWellFormed | internal/filemgr/fs_mutate.go:49 | after a rename every node's parent is a directory |
| FileSystem.Disk.MkdirAll | internal/backup/restore.go:160 | creates exactly the missing directories on the way, and fails for no outside reason exactly when a file is there; at every moment only directories on the way have been added and every node has its parent, so parents come first |
| FileSystem.Disk.RemoveAll | internal/filemgr/filemgr.go:241-243 | one removal after another, each of something with nothing below it: at every moment only nodes at or below the path are missing and every node has its parent; success means all of them are gone |
| TarArchive.TarWriter.AddTree | internal/migration/migration.go:138-177 | the walk writes exactly the pre-order entries, and fails exactly when no header exists for something in the tree |
| TarArchive.WalkSound | internal/backup/backup.go:220-276 | every entry describes an item of the tree under its relative name |
| TarArchive.WalkComplete | internal/backup/backup.go:220-276 | every item of the tree has an entry |
| TarArchive.StringGuards | internal/backup/restore.go:149-156 | once `..` is ruled out the joined target is the destination followed by the entry's names, and the prefix guard fires only under `/` |
| TarArchive.Resolve | internal/migration/receive.go:153-160 | both guards on strings accept exactly the admitted names and yield the target; a name with two dots in a row is never accepted |
| TarArchive.CopyFile | internal/backup/restore.go:167-176 | opening and copying store the content, cut at 4 GiB, keep an old file's owner and mode, and change nothing else |
| TarArchive.ExtractEntry | internal/migration/receive.go:162-180 | one entry has exactly the effect of one overlay step, and at no moment changes anything outside the destination |
| TarArchive.Extract | internal/backup/restore.go:125-179 | on success the tree is the overlay of all entries; unless a call fails for outside reasons it succeeds exactly when there is one; it never succeeds when any entry's name holds two dots in a row; at every moment, failures included, everything outside the destination is as before, but for directories made above it |
| TarArchive.DotDotEntryStops | internal/backup/restore.go:149-151 | no list with an entry named `a..b`, for any a and b, has an overlay |
| RoundTrip.OverlayAt | internal/backup/restore.go:149-176 | after extraction each path holds the last entry for it, or a directory if an entry needs one, or what it held before |
| RoundTrip.ExtractionSucceedsExactlyWhenAcceptable | internal/migration/receive.go:153-180 | extraction succeeds exactly when every name is admitted and no file stands where a directory is needed or a directory where a file goes, on disk or earlier in the archive |
| RoundTrip.ArchiveMeans | internal/migration/migration.go:138-177 | the entries of a tree name every file and directory of it at its own place and nothing else |
| RoundTrip.TreeExtractsExactlyWithoutConflict | internal/migration/receive.go:153-180 | over any disk, a tree's archive can be extracted exactly when no path in it contains `..` and nothing on the disk is of the wrong kind: no file where it has a directory, or above the destination, and no directory where it has a file |
| RoundTrip.TreeLiesOver | internal/migration/receive.go:135-183 | then every path below the destination holds the tree's directory or file, or, where it has none, what it held before |
| RoundTrip.RoundTripRebuilds | internal/migration/receive.go:135-183 | extracting a tree's archive into an empty place rebuilds all directories and files, drops links and devices, and touches nothing else |
| RoundTrip.RoundTripExactlyOnPlainTrees | internal/migration/receive.go:153-180 | a tree comes back as it was if and only if it holds only directories and files of at most 4 GiB and no path contains `..` |
| RoundTrip.SafeNamesExactly | internal/migration/receive.go:153 | the names are safe if and only if no name anywhere in the tree holds two dots in a row |
| RoundTrip.DottedNameDoesNotComeBack | internal/migration/receive.go:153 | a tree with a name like `a..b` anywhere in it does not come back |
| RoundTrip.Transfer | internal/migration/receive.go:83-97 | writer and extractor one after the other, over a target that may hold something: the archive is written exactly when there is no socket; unless a call fails for outside reasons the extraction succeeds exactly when names are safe and no kinds conflict; then the source lies over what was there |
| RoundTrip.WalkFailsOnSocket | internal/backup/backup.go:250-253 | the walk fails only on a socket in the tree |
| RoundTrip.WalkMeetsNoSocket | internal/backup/backup.go:250-253 | a walk that succeeds has met no socket |
| ArchiveModes.ModesComeBack | internal/migration/receive.go:162-180 | a tree archived and extracted over any disk: a file that is new has exactly its archived mode; a new directory has 0750 after a restore, and its own mode with the owner's bits set after a migration; what was there keeps owner and mode |
| ArchiveModes.OverlayGives | internal/backup/restore.go:160-176 | every node an extraction makes is given the mode by the first entry that makes it, and no old node loses its own |
| ArchiveModes.WalkGives | internal/migration/migration.go:138-177 | the walk writes a directory before what is in it, so its own entry is the first to make it |
| ArchiveModes.OwnerBitsSet | internal/migration/receive.go:164 | the owner's three bits are set and no other bit changes |
| ArchiveModes.LimitIsPrefix | internal/migration/receive.go:175 | what is stored of a content is its beginning, all of it up to 4 GiB |
| SiteBackup.RestoreFiles | internal/backup/restore.go:46-79 | making the home directory and extracting into it is the overlay on the tree with that directory; unless a call fails for outside reasons it succeeds exactly when the directory can be made and the entries are acceptable there |
| SiteBackup.NoTreeContainsItself | internal/backup/restore.go:48 | no tree equals its own part under `public`, unless it is empty |
| SiteBackup.DocrootAfterRestore | internal/backup/restore.go:48 | after a restore a docroot path holds the archived `public/...` of that path, or what it held |
| SiteBackup.RestoreRebuildsDocrootOnlyIfEmpty | internal/backup/backup.go:106 | restoring over an emptied docroot brings it back if and only if there was nothing in it |
| SiteBackup.RestoredFilesLandInHome | internal/backup/restore.go:48 | every archived item stands at its relative path below the home directory instead |
| PathResolution.ResolvePath | internal/filemgr/filemgr.go:84-107 | succeeds exactly when the text has no NUL and, trimmed, no `..` component; the result is the docroot followed by the components that are neither empty nor `.` |
| PathResolution.JoinedPath | internal/archive/archive.go:415-419 | after the `..` scan the prefix guard always holds, in both copies of the code |
| PathResolution.ResolvingAgain | internal/filemgr/filemgr.go:84-107 | a result, given back relative to the docroot, resolves to itself exactly when no white space starts its first name or ends its last |
| FileManager.GuardAdmitsDocroot | internal/filemgr/fs_mutate.go:61-76 | the guard lets the docroot and everything below it pass |
| FileManager.MissingAncestors | internal/filemgr/fs_mutate.go:80-93 | the upward loop ends and lists exactly the missing paths: the first one's parent exists, each other's parent is the one before, the last is the path asked for |
| FileManager.MakeMissing | internal/filemgr/fs_mutate.go:94-101 | the creating loop makes exactly the listed directories, owned by the site user, at every moment only adding directories |
| FileManager.MkdirAllOwned | internal/filemgr/fs_mutate.go:60-103 | success leaves the old tree with exactly the missing directories added; a failure other than an I/O error means a file is in the way |
| FileManager.EnsuredExact | internal/filemgr/fs_mutate.go:60-103 | afterwards the path and all its ancestors exist, the added nodes are its missing ancestors and itself, owned by the site user, and old nodes are untouched |
| FileManager.EnsureDocroot | internal/filemgr/fs_mutate.go:54-56 | makes the docroot and its missing ancestors and nothing else |
| FileManager.List | internal/filemgr/filemgr.go:110-137 | refuses exactly a path with a NUL or a `..` component; returns exactly the names in the directory, having changed at most the missing docroot; unless a call fails for outside reasons it succeeds exactly when the path, once the docroot is there, is a directory |
| FileManager.Mkdir | internal/filemgr/fs_mutate.go:16-28 | refuses exactly a path with a NUL or a `..` component; success leaves exactly the ensured path, a new directory there having the site's owner and the requested permission bits, 0755 for none; unless a call fails for outside reasons it succeeds exactly when something stands at the path or no file is on the way to it |
| FileManager.MkdirLeavesDirectoryUnlessFile | internal/filemgr/fs_mutate.go:77-79 | a successful Mkdir means a directory stands there exactly when no file did |
| FileChanges.FillTemp | internal/filemgr/filemgr.go:201-217 | writing, closing, chmod and chown change only the temporary file; success leaves it complete |
| FileChanges.FinishTemp | internal/filemgr/filemgr.go:201-222 | the rename installs exactly the finished node, and does so unless a call fails for outside reasons or the target may not be replaced; every other way out leaves the tree as before the temporary file, or a removal of it has failed |
| FileChanges.ReplaceFile | internal/filemgr/filemgr.go:195-222 | at every moment the target holds its old node or the complete new one with the requested mode and owner, and a write that succeeds misses that exactly when the temporary file is the target itself; a failure leaves the tree as it was unless a removal failed, and then only the temporary file more; without outside failures it succeeds exactly when the target can be replaced and the temporary name is free |
| FileChanges.CollisionBreaksAtomicity | internal/filemgr/filemgr.go:196 | some random number makes os.CreateTemp put an empty file at the target if and only if the target is missing, its parent is a directory, its name is `.filemgr-` and the decimal of a 32-bit number, and the new file is not that empty one |
| FileChanges.Write | internal/filemgr/filemgr.go:173-223 | each refusal exactly on its condition; past them, without outside failures, success exactly when no file is on the way, the target is no directory and the temporary name is free; success leaves at the path a file with the content, the site's owner and the requested permission bits, 0644 for none, and makes no more than missing directories above it, 0750 down to the docroot and 0755 below; failure leaves at most directories added and, if a removal failed, the temporary file; old-or-new at every moment; nothing outside the docroot |
| FileChanges.Delete | internal/filemgr/filemgr.go:227-254 | refuses exactly a path with a NUL or a `..` component, and the docroot; success removes exactly the subtree; without outside failures it succeeds exactly when something is there, and `recursive` is set if it is a filled directory, and fails only where nothing is; at every moment of a recursive delete only nodes of the subtree are missing |
| FileChanges.Move | internal/filemgr/fs_mutate.go:31-50 | refuses exactly paths with a NUL or a `..` component, and the docroot; success is exactly the rename on the tree with the target's parent ensured: the source's node stands at the target and no longer at the source; without outside failures it succeeds exactly when the source is there and that rename is permitted; a failure only adds directories above the target |
| FileChanges.RunSession | internal/filemgr/filemgr.go:110-254 | over any sequence of operations, failing part-way or not, at every moment every node's parent is a directory, the docroot stands as it was, and nothing outside it changed but for its missing ancestors appearing |
| ArchiveTokens.InvKept | internal/archive/archive.go:85-112 | every step of builders, downloads and the janitor keeps the token accounting |
| ArchiveTokens.InsertKeepsInv | internal/archive/archive.go:259-263 | registering a build keeps the accounting: an entry it overwrites is counted as replaced, and never also as downloaded or swept |
| ArchiveTokens.TokensAreOneShot | internal/archive/archive.go:191-205 | over every interleaving a registration is still there or was taken out exactly once, by a download, a sweep or an overwrite; never by two of them; and nothing passes the expiry check after the deadline |
| ArchiveTokens.PromptBuilderLosesNothing | internal/archive/archive.go:85-112 | if the builder of one token is prompt and the token new, then whatever all other builders, downloads and the janitor do, its file is not lost while it is written, or unexpired and registered or being downloaded; a download that opens it before the deadline finds it |
| ArchiveTokens.PromptRunsLoseNothing | internal/archive/archive.go:85-112 | so when every builder is prompt no file at all is lost, and every opening before the deadline finds its file |
| ArchiveTokens.TimelyDownloadOpens | internal/archive/archive.go:202-210 | in any state, a handler that comes to its check by the deadline passes it and opens its file |
| ArchiveTokens.LateDownloadIsRefused | internal/archive/archive.go:201-205 | one that comes late is turned away without opening anything, and the file is removed |
| ArchiveTokens.LateHandlerNeverOpens | internal/archive/archive.go:201-205 | after any schedule, a registration whose handler has not come to its check by the deadline is never opened, by anybody, whatever happens before or afterwards |
| ArchiveTokens.PromptDownloadFindsFile | internal/archive/archive.go:191-207 | with a prompt builder of a new token, a request for the token, its check and its opening by the deadline find the file there, whatever all others do in between |
| ArchiveTokens.RegistrationWaits | internal/archive/archive.go:88-98 | until its deadline a registration leaves the registry only by a request for it or by another build under its token |
| ArchiveTokens.FailedAndFetchedAreGone | internal/archive/archive.go:250-257 | a build that fails, and a download that ends, leave no file under their name |
| ArchiveTokens.JanitorRoundCleans | internal/archive/archive.go:85-112 | each round of the janitor takes away every expired registration with its file, and any file it looks at that was last written over twice MaxAge ago |
| ArchiveTokens.RestBeforeStampLosesArchiveExactlyWhenLong | internal/archive/archive.go:259 | resting before the stamp can lose the archive exactly when the rest exceeds MaxAge |
| ArchiveTokens.PauseLosesArchiveExactlyWhenLong | internal/archive/archive.go:103-111 | pausing before the last write can lose it exactly when the pause exceeds 2 MaxAge, however prompt the stamp |
| ArchiveStore.Store.Redeem | internal/archive/archive.go:191-200 | the entry is handed out at most once: it leaves the registry in the same step, which is the redeem step of the interleaved model |
| ArchiveStore.Store.RemoveExpired | internal/archive/archive.go:88-94 | the first pass removes exactly the files of expired entries and notes exactly their tokens |
| ArchiveStore.Store.Sweep | internal/archive/archive.go:86-98 | both passes together are the atomic sweep step of the interleaved model, on any of its states with this registry and directory |
| ArchiveStore.CappedWriter.Write | internal/archive/archive.go:275-282 | a write that would pass the cap is refused whole; else what the file accepted is counted; the count never passes the cap |
| ArchiveStore.CappedWriter.WriteAll | internal/archive/archive.go:275-282 | over any sequence of writes at most the cap is written, always a prefix of the output, and all of it exactly when nothing falls short and it fits |
| LineScanner.Scanner.Scan | internal/cdncache/collector.go:101-103 | delivers the lines one by one and stops at the end or at a line of 64 KiB, which sets the error |
| LineScanner.LinesConcat | internal/cdncache/collector.go:96-103 | cutting a text after a newline changes nothing about its lines |
| LineScanner.CarriageReturnDropped | internal/cdncache/collector.go:102-103 | one carriage return before the newline is dropped, and no more than one |
| LineScanner.CutIsSafeExactlyAfterNewline | internal/cdncache/collector.go:96-103 | reading in two parts gives the lines of the whole exactly when the cut is after a newline or at an end |
| CacheLog.Collector.Collect | internal/cdncache/collector.go:77-150 | counts exactly the lines after the offset, from the start when the file shrank, moves the offset to the end read, and on a too long line reports nothing and stays |
| CacheLog.CountText | internal/cdncache/collector.go:100-134 | the counting loop gives each domain one pass's counters, unless a line is too long |
| CacheLog.SummaryCounts | internal/cdncache/collector.go:118-130 | each counter is the number of lines of its class, and the total is the five classes plus the lines with other statuses |
| CacheLog.SummaryConcat | internal/cdncache/collector.go:118-130 | counting two stretches and adding is counting both |
| CacheLog.FieldsAreWords | internal/cdncache/collector.go:104-111 | the two emptiness checks never fire |
| CacheLog.StatusClasses | internal/cdncache/collector.go:118-130 | which ASCII status, in upper or lower case, counts as which class |
| CacheCuts.WordsCount | internal/cdncache/collector.go:104-111 | a line counts if and only if it has two words and the second is not `-`, for the first one with the class of the second |
| CacheLog.CollectAll | internal/cdncache/collector.go:77-150 | over any number of runs on a log that is cut at newlines, appended to, and rotated so that the collector notices, the reports add up to one pass over everything read of all the files: no line twice, none skipped; all of the present file is read exactly when no line in it is too long; a run has pushed exactly when its report is not empty and the push works |
| CacheLog.ReceivedPlusLost | internal/cdncache/collector.go:136-149 | what the API received and what the failed pushes carried add up to one pass over everything read: nothing is sent twice, and what failed is not sent again |
| CacheLog.ReceivedAllExactlyWhenPushesWorked | internal/cdncache/collector.go:136-149 | the API has the counts of everything read if and only if the push of every report that is not empty worked |
| CacheLog.TooLongLineStopsCounting | internal/cdncache/collector.go:132-134 | once a line is too long, every later run on the growing file fails too |
| CacheLog.RotationIsHarmlessExactlyWhenNoticed | internal/cdncache/collector.go:87-95 | a run that meets a new file, cut at a newline, counts the whole of it if and only if the file is smaller than the offset, or what the offset skips holds no request |
| CacheCuts.CutKeepsCountsExactly | internal/cdncache/collector.go:96-130 | reading a log in two parts, cut at any position of any of its request lines, keeps the counts of every domain if and only if the cut is at an end of the line or before its newline, or the status is `-`, or the part of the status before the cut is not `-` and of the same class |
| CacheCuts.FirstHalfCounts | internal/cdncache/collector.go:100-111 | what a request line counts for when the text ends in it: nothing up to the space after the domain, then its domain with the class of the cut status |
| CacheCuts.SecondHalfCounts | internal/cdncache/collector.go:100-111 | what it counts for when a text starts in it: inside the domain the rest of the domain is charged, after that nothing |
| CacheCuts.AnyCutKeepsCountsExactly | internal/cdncache/collector.go:96-130 | every position in a log of request lines is a position in one of them, and the cut keeps the counts exactly when it is harmless there |
| CacheCuts.ReportsAddUpExactly | internal/cdncache/collector.go:96-149 | so the reports of two runs add up to one pass over the whole text exactly when the cut between them keeps the counts |
| CacheCuts.UnnoticedRotationLosesExactly | internal/cdncache/collector.go:87-95 | a run that takes a new file of requests for the old one and starts anywhere in a line of it counts the whole file if and only if no request begins before that place |
| Vhost.VhostIsConserved | internal/jobs/handlers_site.go:148-230 | under every interleaving of any jobs, failing calls included, exactly one of the two paths exists and holds the original vhost |
| Vhost.NeverLeftDark | internal/jobs/handlers_site.go:165-230 | when no call fails, after all jobs have ended the vhost is at the active path, or it is put away and some page exists, whose content this does not say |
| Vhost.OneDomainLeavesItsPage | internal/jobs/handlers_site.go:134-239 | when moreover all suspends name one domain, whatever the number of jobs and their interleaving, the site ends served, with or without exactly that domain's page, or suspended with exactly that page |
| Vhost.SessionSettles | internal/jobs/handlers_site.go:134-239 | after any sequence of jobs whose calls succeed the last one decides: served without a page, or disabled with the page for the domain it gave, else for the vhost's own if the site was served then, else for none |
| Vhost.OverlapDecidedByFourCalls | internal/jobs/handlers_site.go:165-230 | one suspend and one unsuspend of a served site, interleaved in any way with no call failing: in the end the site is suspended with its page exactly when the unsuspend looked for the disabled vhost before it was moved there, served alone exactly when the page was created before its removal, and served with the page beside it exactly when the page was created after the removal and the vhost moved before the unsuspend looked |
| Vhost.OverlapLeavesBoth | internal/jobs/handlers_site.go:165-230 | two overlapping jobs, every call successful, can leave the site served with its suspended page beside it |
| Vhost.OverlapMixesPagesExactly | internal/jobs/handlers_site.go:165-192 | two suspends of a served site, interleaved in any way with no call failing: the page is the last writer's if it opened the file after the other had filled it, else its page written over the other's; a whole page of either if and only if in the first case, or the last writer's domain is not the shorter one, or its page is how the other one starts |
| Vhost.OverlapLeavesMixedPage | internal/jobs/handlers_site.go:165-192 | for any two domains of different length and first letter there is a schedule, every call and both jobs successful, that leaves a page that is neither's |
| Vhost.UnsuspendRestores | internal/jobs/handlers_site.go:217-230 | after any sequence of jobs, with any failures, one unsuspend whose calls succeed puts all three files back |
| Vhost.SuspendReplaces | internal/jobs/handlers_site.go:152-192 | a suspend whose calls succeed leaves the vhost disabled and the page for the payload's domain, else the active vhost's, else none |
| Vhost.SuspendReportsExactly | internal/jobs/handlers_site.go:152-200 | a suspend alone, whichever calls fail: the vhost is put away exactly when it is found and the rename works, and the job succeeds exactly when the page is created and written and nginx reloads |
| Vhost.UnsuspendReportsExactly | internal/jobs/handlers_site.go:220-239 | an unsuspend alone, whichever calls fail: the vhost comes back exactly when it is found and the rename works; a failing rename or reload is reported, a failing removal or look is not |
| Vhost.FinishIsASchedule | internal/jobs/handlers_site.go:134-230 | a job run alone is one of the interleaved system's schedules |
| Vhost.Directory.FindDomain | internal/jobs/handlers_site.go:153-163 | the loop finds the name on the last server_name line that has one |
| Vhost.DomainIsLastServerName | internal/jobs/handlers_site.go:153-163 | the domain of a vhost is the name in its last server_name directive, without the semicolon |
| Vhost.Directory.Suspend | internal/jobs/handlers_site.go:134-200 | the handler makes exactly the calls of a suspend job, whichever of them fail |
| Vhost.Directory.Unsuspend | internal/jobs/handlers_site.go:204-239 | the handler makes exactly the calls of an unsuspend job, whichever of them fail |
| Credentials.SanitizeID | internal/mariadb/mariadb.go:113-131 | the loop and the cut give `db_` and the first 16 bytes, letters and digits kept, everything else, a hyphen too, an underscore |
| Credentials.DbNameIsPlain | internal/mariadb/mariadb.go:108-131 | a name is at most 19 letters, digits and underscores |
| Credentials.MigrationFindsDatabaseExactlyWhenPlain | internal/migration/migration.go:124-127 | migration's name is the created one if and only if the first 16 bytes need no replacing; never with a hyphen in ninth place |
| Credentials.ReadForWordPress | internal/wordpress/wordpress.go:211-241 | succeeds exactly when the scanner does and all three values are there, and returns the last ones set |
| Credentials.ReadForNode | internal/nodejs/nodejs.go:480-500 | returns the last values set and fails exactly when the scanner does |
| Credentials.SettingReadsTrimmed | internal/wordpress/wordpress.go:219-228 | a setting with white space around the line, the key and the value sets that key to that value |
| Credentials.ReadForClone | internal/jobs/handlers_clone.go:304-343 | succeeds exactly when name and user were set before the file ended or a line was too long, with defaults for host and port |
| Credentials.LinesOfFile | internal/mariadb/mariadb.go:70-71 | the printed file is the site ID's lines, the note and the five settings, and fits the scanner exactly when the site ID's lines do |
| Credentials.CredentialsReadBack | internal/mariadb/mariadb.go:69-71 | for every site ID whose lines fit, newlines and settings inside it included, all three readers get back the printed name, user and password |
| Credentials.TooLongIsReported | internal/wordpress/wordpress.go:230-240 | a map reader gets everything without an error if and only if every line of the site ID fits |
| Credentials.CloneIsMisledExactly | internal/jobs/handlers_clone.go:304-343 | when a line of the site ID is too long the clone reader, which ignores the scanner's error, succeeds if and only if the site ID's lines before it set a name and a user, and returns what they set; it returns what was printed if and only if every line fits or these lines set just that |
| Credentials.LongLineMisleadsClone | internal/jobs/handlers_clone.go:304-343 | for any name and user there is a site ID that makes it return them |
| RedisFlush.ParseReply | internal/redisutil/flush.go:39-54 | the reply is taken apart into the trimmed first line and the trimmed non-blank others |
| RedisFlush.ReplyReadsBack | internal/redisutil/flush.go:39-54 | a printed reply is read back: the cursor exactly, of each key its trimmed non-blank lines |
| RedisFlush.ViewOfReply | internal/redisutil/flush.go:33-66 | a turn with a server's reply gets through unless there is something to delete and redis-cli fails at that; an empty page gets through; only cursor 0 is the last |
| RedisFlush.ViewOfFailure | internal/redisutil/flush.go:35-44 | a turn whose SCAN fails or prints nothing does not get through and changes nothing |
| RedisFlush.FlushSiteKeys | internal/redisutil/flush.go:14-68 | it succeeds, fails or goes on exactly as the script's first cursor 0 or first failing turn says; the total is the number of names sent to DEL in the turns handled; the server holds what the last turn tried left |
| RedisFlush.AskedIsNamed | internal/redisutil/flush.go:39-66 | DEL is asked for every name in a handled reply and for nothing else |
| RedisFlush.AskedHasBeenAbsent | internal/redisutil/flush.go:55-66 | if after each DEL the server holds none of the names in it, which its exit status does not say, every name asked for was gone at some moment |
| RedisFlush.HonouredExactly | internal/redisutil/flush.go:55-60 | after a DEL that counts as done none of its names is left if and only if the server removed them, or held none of them; the exit status is not enough |
| RedisFlush.TotalCoversAsked | internal/redisutil/flush.go:60 | the total is at least the number of different names |
| RedisFlush.FlushLeavesNone | internal/redisutil/flush.go:14-68 | under SCAN's guarantee no initial key of the site that survives parsing is left after success, unless somebody put it back |
| RedisFlush.FlushDeletesOnlyOwnExactly | internal/redisutil/flush.go:33-66 | everything deleted is a key of the site if and only if every non-blank line of every returned key, trimmed, begins with the site's prefix |
| RedisFlush.FlushSparesOthersExactly | internal/redisutil/flush.go:33-66 | a key of another site is deleted if and only if a line of a returned key is one |
| RedisFlush.OneOwner | internal/redisutil/flush.go:15 | no key has the prefixes of two sites whose IDs are free of colons |
| RedisFlush.NewlineKeyDeletesAnothers | internal/redisutil/flush.go:49-54 | for any two sites whose IDs hold no colon: a key of one with a newline and a key of the other behind it matches only the first one's pattern, yet flushing that site deletes the other one's key and not the key returned |
| RedisFlush.SuchKeysExist | internal/redisutil/flush.go:15 | for any two IDs without a newline, `site_A:x` and `site_B:y` are such keys |
| Cpu.Percent | internal/metrics/cpu.go:68-84 | always between 0 and 100, whatever the counters do |
| Cpu.SumsAreTrue | internal/metrics/cpu.go:24-32 | the 64-bit sums are the true ones when the true total fits |
| Cpu.Sampler.Sample | internal/metrics/cpu.go:52-85 | 0 at first, then the percentage against the last reading, which is replaced each time; a failed reading changes nothing |
| Cpu.ClampActsExactlyOnStepBack | internal/metrics/cpu.go:73-83 | the clamp acts if and only if busy time or idle time went back, and then reports 100 |
| Cpu.ShareOfCounters | internal/metrics/cpu.go:24-32 | in terms of the eight counters, none of which has gone back: the percentage of the time passed on all of them that passed on the six that are neither idle nor waiting |
| Cpu.PercentagesTelescope | internal/metrics/cpu.go:73-84 | when time never goes back, percentages times elapsed jiffies add up to 100 times the busy growth of the run |
| Cpu.UsageReporter.Collect | internal/siteusage/collector.go:139-154 | the percentage against the last sample of the site, 0 after a reset or without elapsed time; the sample is replaced |
| Cpu.SitePercentagesAddUp | internal/siteusage/collector.go:147-153 | over any run at increasing times the percentages account for what the counter gained; a reset loses only its own step |
| Cpu.SitePercentagesTelescope | internal/siteusage/collector.go:147-153 | without a reset that is the counter's whole growth |
| Cpu.Run | internal/siteusage/collector.go:69-94 | the loop, for one site: a seed sample, then a report at each tick, each the percentage against the last sample that could be taken |
| Cpu.ChargedFromSeed | internal/siteusage/collector.go:69-154 | over any run from the start, unreadable ticks included, the reports charge exactly what the counter gained on the seed sample |
| Cpu.ChargesExactlyWhenSeedRead | internal/siteusage/collector.go:87-94 | over any run from the start, once the counter has been read, the reports account for its growth since the start if and only if it could be read at the start or was 0 then; else they charge the site's whole past as well |
| Version.ParseVer | internal/updater/updater.go:134-145 | the loop fills the three segments, 0 where there is none |
| Version.IsNewer | internal/updater/updater.go:119-131 | true exactly when the candidate's triple is lexicographically larger |
| Version.OlderIsSmaller | internal/updater/updater.go:119-131 | a triple is older exactly when, its numbers read as the digits of one number, that is the smaller one |
| Version.UpdatesNeverReturn | internal/updater/updater.go:30-33 | a chain of updates is strictly increasing from end to end and never returns |
| Version.PrintedReadsBack | internal/updater/updater.go:134-145 | three printed numbers are read back |
| Version.FourthPartDropsThird | internal/updater/updater.go:135 | a version of four parts or more has third segment 0, whatever its third part is |
| Version.ThirdPartReadExactly | internal/updater/updater.go:134-145 | the third part is read as its number if and only if that is 0, or the part is a numeral within int and the last one |
| Version.ReadAsNumbersExactly | internal/updater/updater.go:134-145 | a version is read as the numbers in its first three parts if and only if each of them is a numeral within int, the third with nothing after it, or stands for 0 |
| Version.DecoratedPartIsDropped | internal/updater/updater.go:134-145 | a part with anything before or after its digits, as in `v1` and `3-rc1`, counts as 0 |

## Left out

- HTTP, Connect RPC, B2, multipart, WebSocket and terminal traffic, and all shell commands: a remote call or a command is a step that succeeds or fails.
- The byte formats of tar, gzip and zip, hashes and encryption: an archive is a sequence of entries.
- Symbolic links in the destination, the umask, other processes changing the disk, and crashes: the disk changes only by the agent's own calls.
- Provisioning, nginx and PHP templates, framework detection, payload fallbacks: straight lines of commands or text substitution.
- Choosing the directory a backup reads (four candidates, deriveShortID): the model takes the v2 layout, `.../public`.
- JobProtocol.InstallsAreQuiet: covers jobs delivered by heartbeat; calls that run work outside the executor's count, such as the direct gRPC handlers, are not part of it.
- JobProtocol.Drains: assumes that every handler returns; a handler that panics or hangs is not modelled.
- JobExecutor.Executor.CheckAndUpdate: the download, the checksum and the temporary binary are one step that works or does not; the restart after an install is not modelled, the goroutine goes on to dispatch.
- FileSystem.Disk.RemoveAll: it stops at its first failing removal; os.RemoveAll goes on with what lies beside it, which leaves the same kinds of trees.
- A write of many bytes is one moment of the disk's history, with all or a part of them.
- TarArchive.TarWriter.AddTree: files do not change, vanish or become unreadable during the walk.
- FileSystem.Disk.CreateTemp: os.CreateTemp tries up to 10000 random 32-bit numbers; the model takes the one it ends with as a parameter, `draw`.
- Looking a path up (stat, lstat) is modelled as answering truthfully; a lookup that fails for outside reasons is not.
- FileManager.List: sizes, times and sorting of the listing are left out; Read is left out because it changes nothing.
- ArchiveTokens.PromptRunsLoseNothing: removals by the janitor, by builders and by downloads succeed; one that fails only keeps a file for longer. Tokens are given by the schedule, and `PromptBuilderLosesNothing` asks that the one token is new.
- ArchiveTokens.TokensAreOneShot: the scrub may look at any file in any order, and an HTTP body that fails half-way is not told from one that is delivered.
- ArchiveStore.CappedWriter.Write: int64 overflow of the sum, which needs a slice of 2^63 bytes, is not modelled.
- CacheLog.Collector.Collect: characters stand for bytes, as in the ASCII log nginx writes; upper-casing is modelled where it can yield an ASCII letter.
- Vhost.Directory.Suspend: the page is modelled as far as the domain decides it; site IDs that make one site's path another's are not considered.
- Credentials.CredentialsReadBack: characters stand for bytes, so white space of several bytes is not trimmed; this concerns only lines of the site ID, which do not matter to the result.
- RedisFlush.FlushLeavesNone: SCAN's guarantee, that replies hold only matching keys and are no error texts, and that DEL removes what it is asked to are assumptions; site IDs with glob characters are outside them.
- RedisFlush.FlushSiteKeys: the loop runs for as long as the script of replies lasts; that a server's cursor comes back to 0 is not proved.
- Cpu.Percent: real numbers stand for float64.
- Cpu.UsageReporter.Collect: memory and disk figures are left out.
- The terminal, the malware scanner, the Node.js and WordPress installers beyond their credential readers, and the shell scripts, which repeat what is modelled here.
