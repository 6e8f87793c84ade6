# Software Hub: verified model

Software Hub publishes installers and archives. Its metadata lives in SQLite, its bytes in storage
directories, and no transaction spans the two. This project models the parts where that matters and
proves what they keep, for every input and every run:

- **File lifecycle** (`StorageState`, `Lifecycle`, `FileService`, `Reconciliation`, `Maintenance`,
  `Downloads`, `Operations`, `CommandLaws`, `RunLaws`, `CrashReports`). Rows move between statuses and files
  between quarantine, software and `temporary/deletions`. Every operation moves first, commits second and undoes the move if the commit
  fails. `Lifecycle` says what the operations would do in one shared transaction and proves the invariant
  for that; `FileService` runs the real steps, with a plan that says which move, transaction, undo or
  unlink fails and where the process stops, and proves each operation against it. `Interruptions` names
  the states in which one may stop, `Durability` says what survives them, and `Operations` puts whole runs
  together. `CommandLaws` and `RunLaws` say, without the specification of any operation, when each
  succeeds, what it may change and what none may do; `Reconciliation` is the independent checker, agrees
  with the invariant, and `CrashReports` says what it reports after each stop and each kind of damage.
- **Backups** (`BackupPaths`, `Manifest`, `BackupTree`, `BackupVerify`, `BackupContents`, `Retention`,
  `Backups`, `BackupLaws`, `Restore`, `Assumptions`). The pruned walk, the manifest, exact verification, retention
  and the staged restore with its rollback.
- **Accounts** (`Login`, `Sessions`). The lockout counter and the sliding session deadlines, as timed
  state machines.
- **Loops and text** (`StreamingUpload`, `LikeSearch`, `Signatures`, `DownloadStats`, `Policies`).

Reading guide. A row of a database table is a value in a map; a class stands for each service that changes
state, and its methods say what the new state is. Clocks, random identifiers, password checks, scan
results, SQLite's integrity check and every I/O error are parameters. SHA-256 is an arbitrary function on
byte sequences: nothing here relies on it being free of collisions. `Durable` is what holds even after a
crash (every row has exactly one intact copy of its bytes, in an area or staged for deletion, and all that
the database says on its own holds); `Consistent` is what holds between operations otherwise. What the backup
theorems assume of foreign code is the predicate `Sound`, and `Assumptions` shows a codec that meets it.

What the proofs turned up:

- A page shows an administrator the links of software that is hidden or in draft, but the download is
  refused: `can_view_software` and `_is_listable_file` admit what `can_download_file` does not
  (`Downloads.HiddenSoftwareShowsARefusedLink`). Links work exactly when the software is published or
  archived (`Downloads.AdminLinksAreGrantedExactlyWhen`). For anonymous visitors every link works.
- A restore that fails after the migration started gives the database back whatever the migration left if
  and only if the live database had both of its sidecars: the except branch removes the main file and moves
  the old files back, and does not look for new sidecars (`Restore.UndoneExactlyWhen`, `Restore.LeftoverLog`).
- `list_backups` promises to ignore invalid entries, but expects only two kinds of error. A checksum file with
  a non-ASCII byte, an infinite size, a time that leaves the calendar in UTC, JSON text that fails to load in
  another way (an integer of too many digits, nesting that is too deep) and a declared name that cannot be
  encoded all escape it, so one such directory stops the whole listing. Retention, and with it the end of
  `create_backup`, is stopped too, after the new backup has been published (`BackupVerify.VerifyDirectory`,
  `Backups.BackupService.ListBackups`, `Backups.BackupService.CreateBackup`).
- A storage file whose name holds a backslash makes every backup fail its own verification, and one whose
  name is not UTF-8 makes the writing of every manifest fail (`BackupContents.WrittenBackupIsAcceptedExactlyWhen`,
  `BackupContents.PrintableExactlyWhen`). Generated storage names are neither.
- The size estimate equals what is copied except that it counts a file standing at the temporary root
  itself, which the copy leaves out (`BackupTree.EstimateAgainstCopy`).
- `verify_backup` looks up the identifier without surrounding white space but compares the manifest with
  the identifier as given, so a padded identifier is always refused
  (`Backups.PaddedIdentifiersAreRefused`); `restore_backup` strips it first.
- A restore_ready that is asked for a published file moves it to quarantine before the transition is refused, and back
  after; stopped in between, it leaves a published file where no download finds it, which reconciliation
  reports (`CrashReports.InterruptedRestoreReady`).
- The spacing of requests that keeps a session alive is exactly `idle - 1 - (touch - 1)` time units, or
  `idle - 1` without a touch interval (`Sessions.SpacedRequestsStayAccepted`, `Sessions.SafeGapIsTight`).

`dafny verify dfyconfig.toml` checks the whole project.

## Model

| member | source | states |
|---|---|---|
| `Operations.RunTrials` | app/services/file_service.py:152-434 | A run of uploads, reviews, publications, disabling, archiving, restoring, both deletions, downloads and clean-ups, with any transaction or move failing and the process stopping inside any of them, passes through a chain of states, each reached from the one before by its trial; so no row loses its bytes or its records; without stops and failed compensations database and storage agree at the end; and if nothing goes wrong the run is exactly that of the whole operations |
| `Operations.Execute` | app/services/file_service.py:152-434 | One trial leads to the state of the whole operation, back to where it was, or to one of the named states in which it may stop; a steady trial stops in none of these; a quiet one carries its command out |
| `Operations.ExecuteOnFile` | app/services/file_service.py:152-324 | The same for uploads and status changes, with the outcome each reports |
| `Operations.ExecuteOther` | app/services/file_service.py:326-434 | The same for deletions, counters, parent changes and clean-ups |
| `Operations.ExecutePermanentDeletion` | app/services/file_service.py:368-434 | The same for permanent deletion: done whole, undone, staged with the row, or staged without it |
| `Operations.EveryRunIsDurable` | app/services/file_service.py:152-434 | In every state of every chain, whatever failed and wherever the process stopped: each row has exactly one intact copy of its bytes, and unique columns, parents, screening, dates and download sums all hold |
| `Operations.SteadyRunsStayConsistent` | app/services/file_service.py:152-434 | Without stops and failed compensations the whole invariant holds in every state of the chain |
| `Operations.QuietRunsAreWhole` | app/services/file_service.py:152-434 | A chain in which nothing goes wrong ends where the run of the whole operations ends |
| `Operations.NewNamesAreFresh` | app/services/file_service.py:152-434 | Upload names that are absent at the start and unlike each other are new when they are used, whatever happens in between |
| `Operations.EveryStateOfEveryRunIsSafe` | app/services/download_service.py:57-128 | In every state of every run, crashes included: infected files are neither ready nor published, counters add up, and every grant points at the only copy of a screened file; without stops every anonymous link works |
| `Durability.ApplyKeepsRecords` | app/services/policies.py:161-193 | Every whole operation keeps unique columns, parents, screening, dates and download sums, whatever the state of the storage |
| `Durability.ApplyKeepsSurvival` | app/services/file_service.py:152-434 | Every whole operation keeps the bytes of every row, also from a state left by a crash |
| `Durability.PartwayKeepsSurvival` | app/services/file_service.py:186-434 | Every state in which an operation may stop keeps the bytes of every row |
| `Durability.PartwayKeepsRecords` | app/services/file_service.py:186-434 | Every state in which an operation may stop keeps what the database says on its own |
| `Durability.LeftoverKeepsConsistency` | app/services/file_service.py:419-434 | What an operation may leave behind without a stop, such as a staged file that could not be unlinked, is consistent |
| `Durability.StagedLeftoverIsConsistent` | app/services/file_service.py:419-434 | A deleted row whose staged file could not be removed leaves a consistent state |
| `Durability.EmptyIsConsistent` | app/services/file_service.py:68-72 | An installation without data is consistent, so runs may start there |
| `Durability.ConsistentIsDurable` | app/services/file_service.py:152-434 | The invariant between operations implies what holds after a crash |
| `Lifecycle.ConsistencyOverRuns` | app/services/file_service.py:152-434 | In every state reachable by successful and failed operations: each row has exactly one file, in an area its status allows, with its size, digest and MIME type; screening, dates, foreign keys, unique columns, orphans and download counts all agree |
| `Lifecycle.ApplyKeepsConsistency` | app/services/file_service.py:152-434 | Each single operation keeps that invariant |
| `Lifecycle.StatusChangeKeepsConsistency` | app/services/file_service.py:152-324 | Review, publish, disable, archive and restore_ready keep it |
| `Lifecycle.TransitionKeepsConsistency` | app/services/file_service.py:460-490 | A permitted transition keeps it when the file ends in an area the new status allows, and the moves it needs are possible |
| `Lifecycle.ShiftKeepsConsistency` | app/services/file_service.py:200-241 | Row and file changing together keep it |
| `Lifecycle.UploadKeepsConsistency` | app/services/upload_service.py:71-129 | A successful upload keeps it |
| `Lifecycle.DeletionKeepsConsistency` | app/services/file_service.py:326-434 | delete_metadata and permanently_delete keep it |
| `Lifecycle.OrphanCleanupKeepsConsistency` | app/services/reconciliation_service.py:323-369 | Removing every orphan keeps it |
| `Lifecycle.TemporaryCleanupKeepsConsistency` | app/storage/cleanup.py:24-78 | Deleting temporary uploads keeps it |
| `Lifecycle.TemporaryCleanupKeepsSurvival` | app/storage/cleanup.py:47-69 | Whatever temporary cleanup deletes, no row loses its bytes, staged ones included |
| `Lifecycle.DownloadKeepsConsistency` | app/repositories/download_stat_repository.py:72-86 | A counted download keeps total and daily sums equal |
| `Lifecycle.BlockedKeepsConsistency` | app/repositories/download_stat_repository.py:88-97 | A blocked attempt changes neither sum |
| `Lifecycle.VisibilityKeepsConsistency` | app/services/file_service.py:448-458 | A change of visibility keeps the invariant |
| `Lifecycle.ConsistentSurvives` | app/services/file_service.py:152-434 | The invariant implies that every row has one intact copy |
| `Lifecycle.PublicationCanBeUndone` | app/services/file_service.py:186-324 | After any successful publish, disable and then restore_ready succeed and restore row and storage exactly, but for the date of first publication |
| `Lifecycle.Verified` | app/services/file_service.py:522-538 | A verified file is the one located copy |
| `CommandLaws.PublishedRowsStay` | app/services/file_service.py:368-387 | In any state, whatever the command: a published row is not removed |
| `CommandLaws.PublicationStays` | app/services/file_service.py:243-275 | A published row stays published under every command but its own disable and archive |
| `CommandLaws.PublishedUntilTakenDown` | app/services/file_service.py:152-434 | Over every run of whole operations a published row is there, and published, until it is disabled or archived |
| `RunLaws.PublishedUntilTakenDownInEveryRun` | app/services/file_service.py:152-434 | The same over every run of the real operations, whatever fails and wherever the process stops |
| `RunLaws.RowsAlwaysDescribeTheSameFile` | app/services/file_service.py:152-434 | Over every such run a row says the same of its file as long as it exists: path, size, digest, extension, type, names and scan |
| `RunLaws.StoppingChangesNoRow` | app/services/file_service.py:186-434 | Wherever an operation stops, rows are as they were, but for an unpublished one that was being deleted |
| `RunLaws.QuietTrialsExist` | app/services/file_service.py:152-434 | For every command there is a trial in which nothing goes wrong, so the laws about quiet and steady runs speak of something |
| `CommandLaws.PublishSucceedsExactlyWhen` | app/services/file_service.py:186-241 | In a consistent state publish succeeds if and only if the file is ready, its release published, its software published or hidden, the scan clean or unavailable, and the bytes carry the signature of the extension |
| `CommandLaws.DisableSucceedsExactlyWhen` | app/services/file_service.py:243-275 | disable succeeds for all but rejected files, archive for ready, published, disabled and archived ones |
| `CommandLaws.RestoreReadySucceedsExactlyWhen` | app/services/file_service.py:277-324 | restore_ready succeeds exactly for quarantined, ready, disabled and archived files that are not infected |
| `CommandLaws.ReviewSucceedsExactlyWhen` | app/services/file_service.py:152-184 | A review succeeds exactly for a file in quarantine, with the status each of the three targets asks for |
| `CommandLaws.DeletionSucceedsExactlyWhen` | app/services/file_service.py:326-434 | In a consistent state exactly the rows that are not published can be deleted, with their file if the staging name is free |
| `CommandLaws.OthersSucceedExactlyWhen` | app/services/file_service.py:326-366 | In any state metadata can be deleted exactly if the file is not published and does not lie in both areas; visibility and counters change for every row; releases and software in any way that leaves every row its parents |
| `CommandLaws.WhyCommandsAreRefused` | app/services/file_service.py:152-538 | In a consistent state each refusal has its error: no row, bytes of another type, a file in the wrong area or a taken staging name, and otherwise status, scan or parents |
| `CommandLaws.UploadSucceedsExactlyWhen` | app/services/upload_service.py:71-129 | An upload succeeds, in any state, exactly when its release is there, its checks pass, it has between one byte and the limit, and nothing has its names |
| `CommandLaws.NewRowIsJudgedByItsBytes` | app/services/upload_service.py:265-275 | A new row is rejected exactly if infected, ready exactly if its bytes carry the signature of its extension and the scan neither failed nor found anything, and quarantined otherwise; its columns are those of the upload and the file lies in quarantine |
| `CommandLaws.AreasOfConsistentRows` | app/services/reconciliation_service.py:463-469 | In a consistent state a published file lies in the software area alone; a quarantined, ready or rejected one in quarantine alone |
| `CommandLaws.StatusChangesVerifyTheFile` | app/services/file_service.py:522-538 | In any state a status change finds exactly one file of the right size; publication checks the digest of the bytes it moves; the file is afterwards in the area the new status asks for, and a deleted one in none |
| `CommandLaws.VerifiedExactlyWhen` | app/services/file_service.py:522-538 | In any state a file verifies exactly when it lies in one area with the size of its row and, where the bytes are read, their digest |
| `CommandLaws.OtherRowsStay` | app/services/file_service.py:152-434 | No command touches the row of another file |
| `CommandLaws.UploadedColumnsStay` | app/services/file_service.py:152-458 | No command changes what an upload said of its file; visibility and count change only by their own commands |
| `CommandLaws.StatusAfter` | app/services/policies.py:161-193 | A row gets the status its command asks for, and keeps it under every other command |
| `CommandLaws.CountedOnce` | app/repositories/download_stat_repository.py:72-97 | A download is counted once, on its day and for its file, and so is a blocked attempt |
| `CommandLaws.ParentsChangeByTheirCommand` | app/services/file_service.py:152-434 | No command on files changes a release or software |
| `CommandLaws.BytesAreNeverChanged` | app/storage/move.py:1-60 | In any state, bytes in a storage area after a command lay at the same path before it, or are those just uploaded |
| `CommandLaws.CleanupsRemoveExactly` | app/services/reconciliation_service.py:323-369 | Cleaning orphans removes exactly the stored files without a row; cleaning temporary files exactly the uploads it is told to |
| `CommandLaws.TemporaryNamesExactly` | app/storage/cleanup.py:24-45 | The names temporary cleanup may delete are exactly those that uploads get |
| `FileService.Hub.Publish` | app/services/file_service.py:186-241 | Move, commit, move back on failure: done equals the all-or-nothing publication, raised leaves rows and files as they were, and a stop between any two steps keeps every row's bytes |
| `FileService.Hub.RestoreReady` | app/services/file_service.py:277-324 | The same for restore_ready, which moves only a file that lies in the software area |
| `FileService.Hub.MoveThenCommit` | app/services/file_service.py:200-241 | The shared protocol: the new state is row and file shifted together, or the old state |
| `FileService.Hub.CommitTransition` | app/services/file_service.py:468-490 | The transaction: the row as the transition leaves it, or nothing |
| `FileService.Hub.ReviewStatus` | app/services/file_service.py:152-184 | Accepts three targets, only for a verified file in quarantine |
| `FileService.Hub.TransitionWithStorageCheck` | app/services/file_service.py:460-490 | disable and archive: verified file, permitted transition, no move |
| `FileService.Hub.DeleteMetadata` | app/services/file_service.py:326-366 | The row and its daily counters go, the file stays and becomes an orphan; refused for a published row or a duplicated file |
| `FileService.Hub.PermanentlyDelete` | app/services/file_service.py:368-434 | Stage, delete the row, unlink; refused for a published row; a failed transaction restores the file, a failed unlink leaves it staged with the row gone |
| `FileService.Hub.StageThenDelete` | app/services/file_service.py:380-428 | The three steps and their compensation, for the located file |
| `FileService.Hub.CommitRowDeletion` | app/services/file_service.py:383-403 | The row and its download rows go together or not at all |
| `FileService.Hub.UnlinkStaged` | app/storage/lifecycle.py:123-142 | Removes the staged file, or raises, when it is missing or cannot be removed, and changes nothing |
| `FileService.Hub.SetFileVisibility` | app/services/file_service.py:448-458 | Only the visibility of the row changes, or nothing |
| `FileService.Hub.InspectStoredFiles` | app/storage/lifecycle.py:44-74 | The loop finds exactly the areas that hold a file at the path |
| `FileService.Hub.LocateStoredFile` | app/storage/lifecycle.py:77-88 | One area, or nothing when there is none or more than one |
| `FileService.Hub.VerifiedPhysicalFile` | app/services/file_service.py:522-538 | The located file if its size, and on request its digest, match the row |
| `FileService.Hub.AtomicMove` | app/storage/move.py:35-81 | Source gone, destination created with the same bytes, never over an existing file; otherwise nothing changes |
| `FileService.Hub.UploadReleaseFile` | app/services/upload_service.py:71-129 | Done inserts row and file together; raised leaves rows and, if its clean-up works, files as they were; a stop leaves part of the temporary file, or the upload in quarantine without a row; without trouble the outcome is the one the checks prescribe |
| `FileService.Hub.StreamToTemporary` | app/storage/upload.py:84-123 | The temporary file holds exactly the upload, within the size limit, or is removed again; a stop inside the copy leaves a prefix of it |
| `FileService.Hub.QuarantineAndPersist` | app/services/upload_service.py:94-262 | The move into quarantine and the transaction, with their common clean-up |
| `FileService.QuarantineRoundTrip` | app/services/upload_service.py:94-129 | Every intermediate state of an upload can be undone to exactly the state before it |
| `FileService.StagedAndGone` | app/storage/lifecycle.py:91-142 | Staging a file and unlinking it equals removing it |
| `StorageState.StagedDeletionsAreNotTemporaryUploads` | app/storage/filename.py:175-178 | No staged deletion has a name that temporary cleanup may delete |
| `StorageState.MoveAndBack` | app/services/file_service.py:540-566 | Moving a stored file and moving it back restores storage exactly |
| `StorageState.MoveKeepsSurvival` | app/storage/move.py:35-81 | A move that does not change whose file it is keeps every row's bytes |
| `StorageState.UnlinkKeepsSurvival` | app/storage/lifecycle.py:123-142 | Removing a file that belongs to no row keeps every row's bytes |
| `Policies.TransitionKeepsScreening` | app/services/policies.py:161-193 | No permitted transition makes an infected file ready or published, and a publication needs a matching signature and a clean or unavailable scan |
| `Policies.TransitionHistory` | app/services/policies.py:56-193 | A file is published only from ready and with its parents' consent, a rejected file can only be quarantined again, a published one only taken down; the first publication date stays for good, and a date of disabling stands exactly while a file is disabled |
| `Policies.BarrierAnticipatesTransition` | app/services/file_service.py:493-515 | What the checks before a publication let through, the transition does not refuse after the move |
| `Policies.InAnyRow` | app/services/policies.py:161-193 | Whatever the row: an infected file is neither approved nor published, and a change of status sets the date of disabling exactly for disabled |
| `Reconciliation.VerifyStorage` | app/services/reconciliation_service.py:129-220 | The report lists exactly the discrepancies; it is healthy exactly when each row has its one file as it should be and every stored file belongs to a row; physical_file_count is the number of stored files |
| `Reconciliation.HealthyExactlyWhenNoIssue` | app/services/reconciliation_service.py:129-220 | The discrepancies are empty exactly when database and storage agree |
| `Reconciliation.CheckRows` | app/services/reconciliation_service.py:138-210 | The loop over the rows: issues, physical files and verified rows |
| `Reconciliation.CheckRow` | app/services/reconciliation_service.py:139-210 | The issues of one row, and whether its content was verified |
| `Reconciliation.VerifiedExactlyWhen` | app/services/reconciliation_service.py:176-206 | Counted as verified are exactly the rows with one file of their size and, if bytes are read, their digest |
| `Reconciliation.FindOrphans` | app/services/reconciliation_service.py:393-456 | Every stored file without a row, each once |
| `Reconciliation.OwnedAndOrphanedAreAll` | app/services/reconciliation_service.py:150-213 | Matches and orphans partition the stored files |
| `Reconciliation.OnlyAbandonedFilesAreReported` | app/services/reconciliation_service.py:129-220 | In a consistent state only the files left by delete_metadata are reported |
| `Reconciliation.ReportsOverRuns` | app/services/reconciliation_service.py:129-220 | The same after every run |
| `Reconciliation.CleaningOrphansHeals` | app/services/reconciliation_service.py:323-369 | Cleaning the orphans makes a consistent state healthy and touches no row and no referenced file |
| `CrashReports.InterruptedPublication` | app/services/reconciliation_service.py:147-176 | After a publication that stopped between move and commit the issues are exactly the ready file in the software area and the abandoned files |
| `CrashReports.InterruptedRestoreReady` | app/services/reconciliation_service.py:147-176 | After a restore_ready that stopped there, exactly the abandoned files, and a published file that now lies in quarantine |
| `CrashReports.InterruptedDeletion` | app/services/reconciliation_service.py:147-176 | After a permanent deletion that stopped with its file staged, exactly the row without a file, if it is still there, and the abandoned files |
| `CrashReports.InterruptedUpload` | app/services/reconciliation_service.py:393-456 | After an upload that stopped before its commit, exactly the file in quarantine, if it got there, and the abandoned files |
| `CrashReports.AlteredFileIsReported` | app/services/reconciliation_service.py:176-205 | A file whose bytes were replaced is reported for its size and, if bytes are read, its digest; without reading them a change that keeps the size goes unnoticed |
| `CrashReports.LostOrDuplicatedFileIsReported` | app/services/reconciliation_service.py:147-167 | A lost file is reported as exactly that, and so is one that was copied into the other area |
| `Maintenance.CleanupOrphans` | app/services/reconciliation_service.py:323-369 | deleted + errors equals the number discovered; without errors exactly the orphans are gone, and without I/O errors there are none; whatever happens, orphans are only staged or removed one by one, and referenced files are never touched |
| `Maintenance.CleanAll` | app/services/reconciliation_service.py:334-363 | The loop behind it |
| `Maintenance.CleanOneOrphan` | app/services/reconciliation_service.py:341-363 | One orphan is removed, staged, or left; nothing else changes |
| `Maintenance.CleanupTemporaryFiles` | app/storage/cleanup.py:24-78 | Gone are exactly the uploads that are old enough, can be read and can be unlinked, none in a dry run; deleted is the number of files gone, and the counters account for every file met |
| `Maintenance.WalkTemporary` | app/storage/cleanup.py:44-69 | The walk behind it |
| `Downloads.AnonymousLinksAreGranted` | app/services/public_catalog_service.py:244-290 | Every link shown to an anonymous visitor on a page they may view is granted |
| `Downloads.AdminLinksAreGrantedExactlyWhen` | app/services/public_catalog_service.py:244-290 | A link shown to an administrator is granted if and only if the software is published or archived |
| `Downloads.HiddenSoftwareShowsARefusedLink` | app/services/public_catalog_service.py:285-290 | A consistent state in which an administrator is shown a link that is refused |
| `Downloads.GrantsAreAuthorised` | app/services/policies.py:213-229 | In any state a grant is for the right file name, a published file, a published or archived release and published or archived software; for an anonymous visitor neither file nor software is private |
| `Downloads.GrantedExactlyWhen` | app/services/policies.py:213-229 | In a consistent state exactly those requests are granted, and no file is missing |
| `Downloads.PagesShowWhatIsGranted` | app/services/public_catalog_service.py:210-290 | An anonymous visitor is shown exactly the public files they would be granted; an administrator is shown at least all they would be granted; a file is shown on the page of its software only |
| `Downloads.WhoMayViewAPage` | app/services/policies.py:202-210 | Disabled software is shown to nobody, draft, hidden and private software to administrators only, everything else to everyone |
| `Downloads.GrantsPointAtTheFile` | app/services/download_service.py:57-128 | Every grant points at the only copy of the file, in the software area, with the size and digest of its row, even in states left by a crash |
| `Downloads.DownloadsAreScreened` | app/services/download_service.py:57-128 | Granted bytes carry the signature of their extension and were scanned clean or unavailable, even in states left by a crash |
| `Downloads.EveryReachableStateIsSafe` | app/services/download_service.py:57-128 | After every run of whole operations: every anonymous link works, infected files are neither ready nor published, counters add up, and every grant points at the only copy of a screened file |
| `Downloads.DurableIsSafe` | app/services/download_service.py:57-128 | The same but for the links, in every state that a crash can leave |
| `Downloads.ConsistentLinksWork` | app/services/public_catalog_service.py:244-290 | In a consistent state every anonymous link on every page works |
| `Downloads.DownloadService.Authorize` | app/services/download_service.py:57-128 | Grants exactly what the checks allow, and only a published, visible file by its own name; counts a granted GET once, a policy refusal as blocked, and nothing else |
| `Downloads.DownloadService.RecordAuthorizedStart` | app/services/download_service.py:130-137 | Total and daily row change in one transaction, or not at all |
| `Downloads.DownloadService.RecordBlocked` | app/services/download_service.py:139-155 | Only the blocked counter of the day changes |
| `DownloadStats.DownloadStatRepository.UpsertDaily` | app/repositories/download_stat_repository.py:99-147 | The SQLite upsert and the read-then-write branch give the same rows |
| `DownloadStats.BumpAddsToTotal` | app/repositories/download_stat_repository.py:99-147 | An increment adds exactly itself to the column sums, whether or not the day had a row |
| `BackupTree.CopyStorage` | app/services/backup_service.py:445-484 | The pruned walk copies exactly the files not below the temporary root, with one true entry each, and the entries add up to their sizes |
| `BackupTree.EstimateSourceBytes` | app/services/backup_service.py:706-731 | The estimate is the database size plus the sizes of the files copied, plus that of a file standing at the temporary root itself |
| `BackupTree.EstimateAgainstCopy` | app/services/backup_service.py:706-731 | Exactly how the estimate differs from what is copied |
| `BackupTree.Advance` | app/services/backup_service.py:451-463 | One step of the walk, for copy and estimate alike |
| `BackupPaths.SafePathsAreAccepted` | app/services/backup_service.py:138-144 | The text of a safe path is accepted and read back as that path |
| `BackupPaths.AcceptedTextsAreSafe` | app/services/backup_service.py:138-144 | An accepted text stands for a safe path, and its normal form is accepted as the same path |
| `BackupPaths.TextsAreInjective` | app/services/backup_service.py:138-144 | Different paths have different texts |
| `BackupPaths.SafeExactlyWhen` | app/services/backup_service.py:138-144 | A text is accepted exactly if it is not empty, does not start with a slash, holds neither NUL nor backslash, and no piece of it between slashes is ".." |
| `BackupPaths.JoinOfSplit` | app/services/backup_service.py:138-144 | Splitting at slashes loses nothing |
| `Manifest.ManifestRoundTrip` | app/services/backup_service.py:605-651 | Parsing a printed well-formed manifest gives that manifest |
| `Manifest.AcceptedIsWellFormed` | app/services/backup_service.py:605-651 | Every accepted manifest has distinct, normalised, safe paths, valid digests and the database entry |
| `Manifest.ParsingIsFunctional` | app/services/backup_service.py:605-651 | A JSON value stands for at most one manifest |
| `Manifest.ParseManifest` | app/services/backup_service.py:605-651 | The parser returns the manifest the value stands for, ends in an unexpected error exactly when a size or the time overflows with everything before it in order, and otherwise refuses exactly when there is no manifest |
| `Manifest.ParseEntries` | app/services/backup_service.py:622-642 | The entry loop: all entries in order; an unexpected error exactly when the entries before one stand, its path is new and its size overflows; otherwise a refusal, repeated paths included |
| `Manifest.InfiniteSizeEscapes` | app/services/backup_service.py:634-638 | An infinite size in a manifest is such an error |
| `Manifest.PrintedFields` | app/services/backup_service.py:59-91 | Exactly eight keys are printed, each with its field, the totals recomputed from the entries |
| `Manifest.ManifestIsRead` | app/services/backup_service.py:605-651 | An accepted manifest says what its JSON object says, with "unknown" for a missing version and a version cut at 64 characters |
| `Manifest.EntryIsRead` | app/services/backup_service.py:622-642 | So does each of its entries |
| `Manifest.RevisionsAccepted` | app/services/backup_service.py:216-228 | Revisions of hexadecimal digits are accepted, and letters of both cases, digits, underscore, dot and hyphen are the characters of any |
| `Manifest.DigitsExactly` | app/services/backup_service.py:147-151 | The classes of the identifier pattern, as lists of characters |
| `Manifest.BackupIdsExactly` | app/services/backup_service.py:757-760 | Accepted as identifiers are exactly the texts of the form in which identifiers are generated |
| `Manifest.SafeBackupIdExactly` | app/services/backup_service.py:147-151 | An identifier is found in a text if and only if white space is all there is around it |
| `BackupVerify.VerifyDirectory` | app/services/backup_service.py:544-603 | Accepts only, and refuses only without, an exact match of directory, manifest, checksum and database; ends in another error exactly when, with all earlier checks passed, the checksum file is not ASCII, the JSON text fails to load unexpectedly, a size or the time overflows, or a declared name cannot be encoded |
| `BackupVerify.NonAsciiChecksumEscapes` | app/services/backup_service.py:559-560 | A directory whose checksum file holds one non-ASCII byte ends verification in such an error |
| `BackupVerify.AcceptedDoesNotEscape` | app/services/backup_service.py:544-603 | What is accepted never ends verification in such an error |
| `BackupVerify.CompareEntries` | app/services/backup_service.py:569-579 | The loop over the declared entries: all match, or the first that does not differs or cannot be looked up |
| `BackupVerify.ChecksumFileReadsBack` | app/services/backup_service.py:525-542 | The checksum file written is read back as digest and file name |
| `BackupVerify.WrittenBackupIsAccepted` | app/services/backup_service.py:525-603 | What is written for safe paths and a manifest of at most 4 MiB is accepted |
| `BackupContents.WrittenBackupIsAcceptedExactlyWhen` | app/services/backup_service.py:525-603 | It is accepted if and only if no file name holds a backslash, the manifest is at most 4 MiB and SQLite approves of the database; its verification ends in no unexpected error |
| `BackupContents.PrintableExactlyWhen` | app/services/backup_service.py:525-542 | The manifest can be written at all if and only if every file name is UTF-8 |
| `Assumptions.SoundCanBeMet` | app/services/backup_service.py:59-91 | What the backup theorems assume of hash, JSON, times and sorting is met by a concrete codec, which tells all manifests apart |
| `BackupContents.PopulatedDeclares` | app/services/backup_service.py:405-419 | The entries of a populated backup declare exactly its files, once each |
| `BackupVerify.ReorderedEntriesDeclare` | app/services/backup_service.py:264-272 | Sorting the entries changes nothing of that |
| `BackupVerify.StorageReadsBack` | app/services/backup_service.py:445-484 | The storage stored in a backup is the storage read from it |
| `BackupLaws.DamageIsNoticed` | app/services/backup_service.py:544-603 | A valid backup in which a file is lost, added, cut or altered so that its digest shows it is refused, whatever the checksum file says, as long as the manifest is the same |
| `BackupLaws.ChangedManifestIsNoticed` | app/services/backup_service.py:553-567 | So is one whose manifest changed so that its digest shows it, as long as the checksum file is the same |
| `BackupLaws.SameManifestSameFiles` | app/services/backup_service.py:544-603 | Two accepted directories with the same manifest hold the same files, alike in size and digest |
| `BackupLaws.AcceptedHolds` | app/services/backup_service.py:544-603 | What acceptance says of a directory: its name, the manifest within 4 MiB and its digest, a sound database of the declared revision, every declared file as declared, and no other |
| `BackupLaws.AcceptedOnce` | app/services/backup_service.py:544-603 | A directory is accepted under one name only, with one manifest |
| `BackupLaws.ReportsCountTheFiles` | app/services/backup_service.py:594-603 | The report of an accepted directory counts its files and their bytes, the two manifest files aside |
| `BackupLaws.BackupHoldsExactly` | app/services/backup_service.py:405-419 | A published backup holds the database, the storage files not below the temporary root and the configuration templates, each unchanged and at its place, and nothing else but the two manifest files |
| `BackupLaws.TemplatesAreHeld` | app/services/backup_service.py:486-523 | Each template is held with its own text |
| `BackupLaws.ListingsAreComplete` | app/services/backup_service.py:321-330 | Listed is exactly what is valid under some name |
| `BackupLaws.OtherDirectoriesAreIgnored` | app/services/backup_service.py:744-755 | A directory whose name is not that of a backup changes nothing about a listing |
| `BackupLaws.EscapesOnlyWhen` | app/services/backup_service.py:544-567 | No directory stops a verification but one under an identifier, with a manifest within the limit and a checksum file that is not ASCII or names the manifest and its digest |
| `BackupLaws.UnreadableChecksumsEscape` | app/services/backup_service.py:553-560 | A checksum file with a byte beyond ASCII always stops verification |
| `BackupLaws.UnencodableNamesEscapeExactly` | app/services/backup_service.py:569-573 | With an acceptable manifest, exactly a declared name that cannot be encoded stops verification, and only after all entries before it were found as declared |
| `BackupLaws.UnreadableManifestsEscape` | app/services/backup_service.py:605-642 | A manifest whose reading overflows stops verification, and so does text that fails to load in an unexpected way |
| `BackupLaws.InfiniteSizeOverflows` | app/services/backup_service.py:634-638 | An infinite size in the first entry of a manifest overflows, whatever follows |
| `BackupLaws.TimeOverflowsLast` | app/services/backup_service.py:622-651 | A time that leaves the calendar overflows if and only if all entries are acceptable and the database is among them |
| `BackupLaws.AsciiReadsBack` | app/services/backup_service.py:559-560 | ASCII text is written and read back unchanged, and nothing else is ever read |
| `Backups.BackupService.CreateBackup` | app/services/backup_service.py:241-313 | A backup appears exactly when every check passes, each of them named, and then it is acceptable and survives its own retention; otherwise the backup root is unchanged; a published backup is reported unless retention meets a directory that stops the listing |
| `Backups.AppearsExactlyWhen` | app/services/backup_service.py:252-274 | A backup appears if and only if there is space for estimate and reserve, the database is readable, sound and of a valid revision, there is a storage root, no step fails, the identifier is free, and the names and the manifest fit |
| `Backups.NeededIsTheEstimate` | app/services/backup_service.py:706-731 | The space asked for is the database and all that the estimating walk counts |
| `BackupLaws.NewBackupsAreReported` | app/services/backup_service.py:261-272 | The report of a new backup has its identifier, its time, the number of its files and of their bytes, and the revision of its database |
| `Backups.BackupService.DrawUp` | app/services/backup_service.py:256-272 | Which steps before the manifest can raise, and the manifest drawn up |
| `Backups.BackupService.WriteAndVerify` | app/services/backup_service.py:273-274 | Writing and verifying succeed exactly when the backup fits and no I/O error occurs |
| `Backups.PopulateBackup` | app/services/backup_service.py:405-419 | The files of a backup and their entries |
| `Backups.CopyConfigTemplates` | app/services/backup_service.py:486-523 | One entry for each template copied |
| `Backups.DraftIsAccepted` | app/services/backup_service.py:525-603 | A drawn-up backup can be written exactly when its names are UTF-8, and is then verified exactly when it fits |
| `Backups.BackupService.VerifyBackup` | app/services/backup_service.py:315-319 | Reports exactly the valid backups |
| `Backups.PaddedIdentifiersAreRefused` | app/services/backup_service.py:315-319 | No identifier with surrounding white space is ever verified |
| `Backups.BackupService.ListBackups` | app/services/backup_service.py:321-330 | The valid backups, each once, newest first; the listing itself raises exactly when verification of some recognised directory ends in an error it does not expect |
| `Backups.BackupService.ApplyRetention` | app/services/backup_service.py:332-367 | Deletes only what is eligible; deleted + errors equals eligible; nothing else changes; raises exactly when the listing does, and then changes nothing |
| `Backups.OnlyOlderValidBackupsGo` | app/services/backup_service.py:343-359 | Whatever the deletions do, only valid unprotected backups beyond the newest N, and no newer than any of those, are touched |
| `Backups.SecondPass` | app/services/backup_service.py:343-359 | With distinct creation times and no deletion errors a second pass has nothing to delete |
| `Retention.EligibleExactly` | app/services/backup_service.py:346-350 | Eligible are the unprotected backups beyond the newest N |
| `Retention.RetentionKeepsTheNewest` | app/services/backup_service.py:346-350 | Each of the newest N and each protected backup stays; nothing deleted is newer than one kept |
| `Retention.SecondPassDeletesNothing` | app/services/backup_service.py:346-350 | The ranking left by a pass has nothing eligible |
| `Retention.InsertionSorts` | app/services/backup_service.py:321-330 | Reports are kept newest first |
| `Restore.Installation.RestoreVerifiedBackup` | app/services/backup_service.py:653-693 | All or nothing: any raise leaves storage and, but for sidecars of an undone migration, the database files as they were, exactly so if the live database had both sidecars; it completes if and only if no step fails, the backup's database is sound, the migration does not raise and the migrated database passes the integrity check; then storage is the backup's and the database installed is that sound one; at no point on the way is old data lost |
| `Restore.PassesExactlyWhen` | app/services/backup_service.py:663-679 | A restore passes if and only if no step meets an I/O error, nothing stands in the way, and both the backup's database and the migrated one are sound |
| `Restore.UndoneExactlyWhen` | app/services/backup_service.py:680-689 | Undoing restores the old database files whatever the migration left if and only if the live database had both sidecars |
| `Restore.UndoneAgrees` | app/services/backup_service.py:680-689 | After one migration: exactly restored if and only if it left no sidecar that the live database lacked |
| `Restore.LeftoverLog` | app/services/backup_service.py:653-693 | A whole restore that raises and leaves a write-ahead log beside a database that had none |
| `Restore.Installation.Attempt` | app/services/backup_service.py:663-679 | The try block: complete, or at a state that the except branch can undo |
| `Restore.Installation.Stage` | app/services/backup_service.py:663-668 | Staging touches nothing live |
| `Restore.Installation.MoveDatabaseAside` | app/services/backup_service.py:695-700 | The files moved aside and those left make up the old database at every step |
| `Restore.Installation.RestoreDatabaseRollback` | app/services/backup_service.py:702-704 | Every file aside returns to its place |
| `Restore.Installation.Undo` | app/services/backup_service.py:680-689 | The except branch restores storage and database from every state the attempt can leave |
| `Restore.RestoreBackup` | app/services/backup_service.py:369-403 | Completes exactly when the selected backup is valid, the safety backup, if asked for, can be made, and every step of the restore passes, each said in terms of the files and faults alone; then it has restored that backup, with a database that passes the integrity check; a raise keeps the storage, and the database too if it had both sidecars or no migration left one; no backup is ever lost |
| `Restore.RestorableExactlyWhen` | app/services/backup_service.py:369-403 | A restore can complete if and only if the text names a valid backup, no step fails, nothing is in the way, and the migration of its database does not raise and leaves a sound one |
| `Restore.TakeSafety` | app/services/backup_service.py:380-385 | Works exactly when the backup can be made, and then holds the storage as it was |
| `Restore.CreateThenRestore` | app/services/backup_service.py:241-403 | Create, any change to the live state, restore: without I/O errors it completes if and only if the migration does not raise and leaves a sound database, and then storage is again exactly what was not below the temporary root and the database is the snapshot, migrated and sound |
| `Restore.BackupInstalls` | app/services/backup_service.py:663-675 | A published backup passes every step up to the migration over anything live, if no file stood in the way of its temporary root |
| `Restore.BackupHoldsTheInstallation` | app/services/backup_service.py:405-419 | A backup holds the retained storage and the database snapshot |
| `Login.AuthService.Login` | app/services/auth_service.py:99-213 | Admits exactly an unlocked active account with the right password; the account and the sessions after it, rotation included |
| `Login.AuthService.ChangePassword` | app/services/auth_service.py:215-247 | Resets counter and lock and revokes every session of the user |
| `Login.LockInvariant` | app/services/auth_service.py:135-187 | Over every run an account is locked exactly when its counter stands at the maximum, and an attempt inside a lock is refused and changes nothing |
| `Login.GuessesAreBounded` | app/services/auth_service.py:135-187 | Without a success at most max_attempts * (T div lockout + 1) wrong passwords are counted in T seconds |
| `Login.GuessBoundIsReached` | app/services/auth_service.py:135-187 | That bound is reached |
| `Login.WrongPasswordsWithinBudget` | app/services/auth_service.py:135-187 | The bound from any reachable state of the account |
| `Login.BudgetStep` | app/services/auth_service.py:135-187 | One attempt uses up what it counts |
| `Login.AdmittedExactlyWhen` | app/services/auth_service.py:99-187 | A login is admitted if and only if the account is active, no lock is running and the password is right |
| `Login.AttemptsChangeOnly` | app/services/auth_service.py:135-187 | What each kind of attempt does to counter and lock, and nothing else |
| `Login.LocksLastExactly` | app/services/auth_service.py:135-187 | A lock refuses the right password exactly until its time is over |
| `Sessions.SessionService.CreateRecord` | app/services/session_service.py:87-130 | A new row with both deadlines; a token in use is refused |
| `Sessions.SessionService.Authenticate` | app/services/session_service.py:132-187 | Accepts exactly a live session of an active user, and slides its deadline after the touch interval |
| `Sessions.SessionService.Revoke` | app/services/session_service.py:189-219 | Marks a live session revoked, and nothing else |
| `Sessions.SessionService.RevokeAllForUser` | app/repositories/session_repository.py:32-48 | Revokes all live sessions of a user but the exempt one, and counts them |
| `Sessions.SessionService.CleanupExpired` | app/repositories/session_repository.py:50-57 | Deletes exactly the expired sessions, and counts them |
| `Sessions.DeadlinesOverRuns` | app/services/session_service.py:105-161 | Over every run expires_at is min(last_activity_at + idle, created_at + absolute) |
| `Sessions.DeadTokensStayDead` | app/services/session_service.py:143-161 | A token rejected for expiry or revocation is never accepted again |
| `Sessions.RevokedTokensStayRefused` | app/services/session_service.py:189-219 | From its revocation on, no request with a token of the table is accepted |
| `Sessions.RotatedTokensStayRefused` | app/services/auth_service.py:157-165 | From a login that rotates its session on, no request with the previous token is accepted |
| `Sessions.RevokedRecordsStay` | app/services/session_service.py:198-211 | Over every run the row of a revoked session stays as it is until it is deleted: a second revocation does not move the time of the first |
| `Sessions.RevocationSparesOthers` | app/repositories/session_repository.py:32-48 | Revoking a token, or all of a user but one, does nothing to any other session |
| `Sessions.AcceptedExactlyWhen` | app/services/session_service.py:132-161 | In every state runs reach, a request is accepted if and only if its session is there, not revoked, used within the idle time and younger than the absolute time, and its user active |
| `Sessions.NewSessionsLive` | app/services/session_service.py:87-130 | A new session is accepted at once and, unused, exactly until its idle time is over |
| `Sessions.ActivityIsRecorded` | app/services/session_service.py:152-161 | An accepted request changes its own row only, and the activity recorded lags by less than the touch interval |
| `Sessions.CleanupRemovesExactly` | app/repositories/session_repository.py:50-57 | Cleanup deletes exactly the sessions that no later request could be accepted with for their age |
| `Sessions.PasswordChangeEndsSessions` | app/services/auth_service.py:227-235 | After a password change no earlier token of the user is accepted |
| `Sessions.SpacedRequestsStayAccepted` | app/services/session_service.py:152-161 | Requests spaced by less than idle - (touch - 1), or idle without a touch interval, keep a session accepted until its absolute deadline, whatever happens to other sessions and users in between, cleanups included |
| `Sessions.SafeGapIsTight` | app/services/session_service.py:152-161 | One unit more, and a request is refused |
| `Sessions.CleanupChangesNoAnswer` | app/repositories/session_repository.py:50-57 | Cleaning expired sessions changes no later answer |
| `LikeSearch.SearchFindsSubstrings` | app/repositories/software_repository.py:114-127 | The escaped pattern matches a text exactly when the text contains the query, letter case aside |
| `LikeSearch.EscapeIsOnePass` | app/repositories/software_repository.py:60-63 | Three replacements in sequence equal one escape per character |
| `LikeSearch.EscapedMatchesItself` | app/repositories/software_repository.py:60-63 | An escaped text followed by a pattern matches exactly the texts that start with it |
| `LikeSearch.NormalizingTwiceIsHarmless` | app/repositories/software_repository.py:43-57 | Normalising a normalised query accepts it and changes nothing |
| `LikeSearch.SplitOfJoin` | app/repositories/software_repository.py:43-57 | Splitting words joined by spaces gives the words back |
| `LikeSearch.SpacesSeparateWords` | app/repositories/software_repository.py:43-57 | Any white space separates words, wherever it stands |
| `LikeSearch.AcceptedQueries` | app/repositories/software_repository.py:43-57 | Which query gives what: none for white space alone, otherwise its words one space apart, accepted exactly from 2 to 100 characters |
| `LikeSearch.WildcardsNeedEscaping` | app/repositories/software_repository.py:60-63 | Unescaped, a query of one wildcard would find every non-empty text; escaped it finds exactly the texts with that character |
| `LikeSearch.SameLetters` | app/repositories/software_repository.py:114-127 | Two characters are found alike exactly if they are equal or the two cases of one ASCII letter |
| `Signatures.StoredAssessmentAgrees` | app/storage/signatures.py:88-130 | For every extension and sample the assessment rebuilt from the stored columns is the one made at upload |
| `Signatures.DetectionOrderIrrelevant` | app/storage/signatures.py:65-85 | The four detections exclude one another |
| `Signatures.DetectedExactlyWhen` | app/storage/signatures.py:65-71 | Detected as executable are exactly the texts put together from "MZ", 58 bytes, the offset of the second signature in little-endian form, the bytes up to there, and that signature |
| `Signatures.LittleEndianInverts` | app/storage/signatures.py:65-71 | Four bytes are read as a number if and only if they are its encoding |
| `Signatures.ZipExactlyWhen` | app/storage/signatures.py:74-85 | A ZIP archive is detected exactly by "PK" and one of three pairs of bytes |
| `StreamingUpload.CopyStream` | app/storage/upload.py:138-179 | For every chunking and pattern of short writes: success means the destination equals the source, with its length, digest and sample; without I/O errors too-large is raised exactly beyond max_size; never more than max_size bytes are written |
| `StreamingUpload.WriteAll` | app/storage/upload.py:182-188 | Writes the whole chunk or a proper prefix of it, and ends |
| `StreamingUpload.Sha256Stream` | app/storage/hashing.py:36-44 | Digest and length of the whole stream, however it is cut |
| `StreamingUpload.StreamingSHA256.Update` | app/storage/hashing.py:22-28 | Appends the chunk |
## Left out

- `transition_status` of the file service: a legacy entry that moves no bytes and that no route calls.
- Two operations interleaved on one file: there is no lock per file, and the invariant is a sequential one.
- Errors after the rename inside `atomic_move`, fsync, permissions, device numbers, symbolic links and
  entries that are not regular files: a move is all or nothing and storage holds regular files only.
- Reading the row back after a commit, as publish and restore_ready do last; a failure there raises although
  the operation was done.
- Identifiers of uploads are assumed new: unlike each other, and at the start of a run no file lies at the generated
  path or temporary name, and no staged file came from that path.
- Stops inside a single commit, rename or unlink, each of which is one step. A stop inside the streaming copy of an
  upload comes at one of its reads or writes.
- Partial removals inside the restore's except branch: removing the new storage directory and moving files back
  succeed, as the code itself assumes.
- Deleted directories and empty directories: storage is a map from path to bytes.
- `recalculate_checksums`, the sort order of issues, the `reclaimed_bytes` counter, `UNSAFE_STORAGE_ENTRY` issues
  and files that vanish during a walk.
- Audit rows, integrity listing, duplicate search, category, tag, software and release editing: they move no file
  and would add easy members. Status and visibility of software and releases change arbitrarily in the model.
- Filename normalisation, the declared size and free-space checks of an upload, and the text checks of its metadata
  are outcomes given to the model; the scanner is too.
- The order in which a page lists releases and files, and labels, sizes and dates on it.
- Joins, filters and paging of the catalog query; LIKE on characters beyond ASCII folds no case in SQLite, and the
  Unicode folding of extensions and MIME types is a parameter that fixes the five known MIME types.
- The backup lock file, its stale state, and the walk over the nginx templates; the templates come as a list of
  distinct paths. A source that changes while it is copied raises, which the model counts as an I/O error.
- JSON text and ISO 8601 text: a manifest that can be printed is assumed to be read back as it was, and a time in
  UTC too. Which other bytes load, fail or fail unexpectedly is a parameter, as is `int()` of a JSON value; `str()`
  of a value that was loaded is assumed to succeed.
- I/O errors while a backup directory is being verified, which escape the listing as well: only what the files
  hold is modelled.
- A character of the model stands for one code point of the program; which texts can be written as UTF-8 and which
  names the file system can look up are parameters, since the model has no lone surrogates of its own.
- Digits outside ASCII, which the backup identifier pattern would also match.
- Passwords, tokens, CSRF secrets and client hashes: cryptography. Rehashing on login changes no modelled column.
- The unknown-user branch of login verifies a dummy password; the model keeps only that nothing changes.
- Manifest version, application version and audit calls of `create_backup` beyond what verification reads.
- Routers, templates, middleware, settings, command line and health checks.
