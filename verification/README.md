# Verified model of the restore-point manager

Ubuntu Backup Manager keeps old versions of files so that a volume can be put
back to any restore point. A stacked file system saves a file the first time it
is touched after the current restore point, prints a record of it into a
character device, and a daemon stores the records as rows of a table. Restoring
replays rows, newest first; deleting a restore point merges and collects rows.

The project models that in two halves and joins them at the row.

- **The versioned undo log.** `Volume.dfy` is one mounted volume (files, save
  directory, open handles, rows, restore points, `modif_tym`, clock) and what
  every hook and command does to it; `Mount.dfy` is the same code in place, each
  method proved against that step. `Table.dfy` holds the two queries and the
  algebra of deletion. `Restore.dfy` is the replay, over files with moved-aside
  copies and over the contents of one moment, with a refinement between them.
  `TimeTravel.dfy` proves that every legal history can be restored to every live
  point; `Exactness.dfy` proves that the guards of a legal history are needed;
  `Operations.dfy` says from any state which next operation can be undone, and
  `Versions.dfy` proves what holds without renames. `Rewind.dfy` runs the restore
  itself through the hooks and `Outcome.dfy` says what that leaves at each path in any
  state. `Kinship.dfy` and `Histories.dfy` carry time travel across restores at any
  moment, and `AfterRestore.dfy` says exactly when a restore, a save or a deletion
  after one keeps every point restorable. `LateWrites.dfy` adds writes through handles
  of unlinked files.
- **The event pipeline.** `Records.dfy` and `Decimal.dfy` print records and read
  them back, `Parser.dfy` is the in-place parser, `Stream.dfy` cuts a stream of
  records anywhere, `Chardev.dfy` is the ring buffer, `Daemon.dfy` one turn of the
  daemon's loop, `Pipeline.dfy` every interleaving of hooks and daemon byte by
  byte, and `DeviceOpen.dfy` open and blocking read for many processes.
- `Delivery.dfy` joins the halves at the row and `Joined.dfy` runs them together.
  `HexNames.dfy` is the naming of saved copies
  and `MakePath.dfy` the creation of missing parent directories.

## How time travel is stated

For a restore point `t`, the *old view* of a volume is the content of the files
whose mtime is not after `t`. The invariant says: replaying the rows that cover
`t`, newest first, on the old view gives exactly the snapshot taken at `t`. Every
operation either leaves the old view and the selected rows alone, or appends one
row that undoes it. It covers any number of restore points, handles, deletions in
any order (of the current point too), re-created paths, and renames.

Two modes differ in one branch. `UnderSaveDir` is the code: the RENAME branch of
the restore loop looks for its source under the save directory
(`userprog/restore.c:265-271`), where no file has that name, so a rename is never
undone. `FromTarget` is the intent written beside it: move the new name back to
the old one. `Mount.MountedVolume.RestoreBackup` follows the code. The theorems
hold for both modes; in the mode of the code a legal history renames no file that a
live restore point has seen, and `Operations.OperationExactly` shows that this is
needed.

## Restores are history too

`restore_backup` works on the mounted volume: its renames, its `cp` and its time
changes run through the hooks, which log rows and save copies while the loop is
under way. In a history without restores that changes nothing (`Rewind.RestoreUnderHooks`),
and `TimeTravel` and `LateWrites` speak of the loop alone. After a restore it does: a restored file
has an old mtime, so the next restore's `cp` has the hook save it once more under the
name of the current epoch, and where that is the copy `cp` is about to read, it reads
the restored content instead. All results about what follows a restore are therefore
stated of the mounted loop.

`Kinship` compares the volume with its kin, on which every restored file was just
written: what the hooks log beyond the kin covers no restore point, and does no harm
as long as it overwrites nothing that a live point takes. `Histories` concludes, for
histories with restores at any moment, that a restore brings back its snapshot exactly
when its own hooks overwrite no source before it is read. The histories are those in
which no save and no deletion takes from a live point what it needs; `AfterRestore`
says exactly what each save and deletion that does so costs. A new point after a
restore leaves nothing to be careful with, but nothing in the code makes one.

## Handles that outlive their file

An old file is unlinked by moving it into the save directory, and a handle that is
still open moves with it. A later write through that handle spoils the saved copy.
But the hook treats the copy as any old file: it saves it first and logs a row whose
path is the copy. That row is newer than the row that needs the copy, so a restore,
newest first, mends the copy before it uses it. `LateWrites` proves that for every
history in which the move leaves the inode's ctime on the same side of every live
point as its mtime; `LateWrites.LateWriteExactly` shows that this is needed.

## What the theorems take as given

- One volume, the root mount: the restore-point table is looked up in each
  mount's own database but only exists in the one of `/`, and restored paths carry
  no mount prefix.
- A new restore point and the `modif_tym` of the kernel and of the daemon change
  together. In the code the daemon reads the latest point once, at start, and the
  kernel polls every ten seconds.
- Every record is stored before the next restore point is made, and before the
  current one is deleted: the daemon stamps a row when it stores it, not when the hook
  prints it. `Joined.TableIsTheLog` is the join under that hypothesis, and
  `Exactness.LateRecord` shows what a late record costs.
- A restore point shares its second with no other event, and the clock does not
  run backwards. `Exactness.WriteUndoneExactly` shows what a shared second costs.
- Copies succeed and every record is accepted. `Exactness.AcceptedRecordNeeded`
  shows what a refused record costs; the hooks ignore the refusal. A copy that
  fails with a positive exit code is also treated as saved by `wrapfs_write`.
- A rename keeps mtime and ctime. On a file system where it updates ctime a rename
  in a history is a rename followed by `ChangeMode`. The hook's own move of an
  unlinked file into the save directory matters to late writes only: `LateWrites`
  takes its ctime as a parameter, with the hypothesis `MoveOk`.
- Records enter the device in the order in which the hooks print them
  (`Joined.Permitted`); nothing in the code keeps two hooks in order before they have
  the device's lock.
- Before the first restore point the hooks save nothing (`TimeTravel.Initial`). In
  the code they follow the clock until a time is set (`Chardev.EpochFixedExactly`),
  so they save and print; such a record, stored after the first point, is a late
  record in the sense of `Exactness.LateRecord`.
- The daemon's inserts succeed while a restore still has its query open, and the
  query returns the rows that were there when it began.
- Moved-aside names (`path.timestamp`) belong to no file and no row of the volume.
- Saved names do not collide: a name is the pair of path and epoch.
  `HexNames.SavedNamesCollideExactly` reduces this to MD5 and to paths that fit a
  page together with their epoch.

## Where the code differs from what it promises

Each line is a theorem with its exact condition, or a precondition stated where
it is needed.

- Renames, refused renames and `truncate(2)` are not undone:
  `Operations.OperationExactly`, and `Exactness.OneOperationExactly` for both modes.
- A write is lost to a restore when the file changed in the restore point's own
  second, had its ctime changed since, or goes through a handle kept open across
  the point: `Exactness.WriteUndoneExactly`.
- A rename onto a path already saved in the same epoch makes the next save of that
  path overwrite the first copy: `Exactness.SecondSaveOverwrites`.
- A record stored after the next restore point is stamped with that point:
  `Exactness.LateRecord`.
- A row stamped with a point that was deleted while it was current is never
  collected: `TimeTravel.DeletionCollectsGarbage`.
- A restore moves a file that a live point has seen aside and cannot bring it back,
  because undoing that rename is the branch that looks in the wrong place:
  `AfterRestore.RestoreKeepsPointsExactly`.
- Restoring back and forth loses a version: a second restore overwrites the copy it is
  about to read with the content the first one restored: `Histories.MountedExactly`,
  `AfterRestore.BackAndForth`, `AfterRestore.RestoreKeepsPointsExactly`.
- Touching a restored file before the next restore point overwrites the copy that
  other points take their version from: `AfterRestore.SaveExactly`,
  `AfterRestore.EditAfterRestoreExactly`.
- Once two rows share a copy, deleting the point of one takes it from the other:
  `AfterRestore.DeletionExactly`.
- Where a rename sets ctime, a write through a handle of an unlinked file spoils the
  saved copy for good: `LateWrites.LateWriteExactly`.
- A record longer than the daemon's buffer makes its assertion fail:
  `Pipeline.AssertionHoldsExactly`.
- A name that holds `}` or a line break does not survive the parser:
  `Parser.ParsesBackExactly`, `Records.RecordClean`.
- Open tests and counts in two steps, so of two processes both can get in and one
  read nothing; one process alone cannot: `DeviceOpen.ReadsReturnDataExactly`.
- A row with access time 0 is never collected: `Table.ZeroAccessTimeOutlives`.
- The parser reads the byte behind a full buffer: `Parser.ParseEventBuffer` takes a
  buffer one cell longer. On framed data its result does not depend on that byte; on
  other data its copy loop runs into older bytes (`Parser.Slid`). `backupfs_to_hex`
  writes one byte more than its comment asks for: `HexNames.BackupfsToHex`.
- Two rows that displace files from one path within a second give them the same
  moved-aside name, and the first file is lost: `Restore.SecondDisplacement`.
- An interrupted insert drops its message and returns its length as if it had
  been stored: `Chardev.Device.CharDevBufferInsert`.

## Model

| member | source | states |
|---|---|---|
| `TimeTravel.TimeTravel` | userprog/restore.c:222-333 | after any legal history, restoring to any live point brings back every file of its snapshot with its content, and no other file that old |
| `TimeTravel.RestoreRecovers` | userprog/restore.c:196-391 | from any state of the invariant, the loop's result seen at the point is the snapshot, moved-aside copies apart |
| `TimeTravel.Step` | backupfs/file.c:33-79 | every allowed operation keeps the whole invariant, a new point adding its snapshot |
| `TimeTravel.WriteStep` | backupfs/file.c:47-69 | a write through any handle keeps every live point restorable |
| `TimeTravel.OpenStep` | backupfs/file.c:223-249 | an open, truncating or not, keeps every live point restorable |
| `TimeTravel.UnlinkStep` | backupfs/inode.c:126-160 | an unlink keeps every live point restorable |
| `TimeTravel.RenameStep` | backupfs/inode.c:405-478 | a rename onto nothing a live point has seen, of a file none has seen (in the intended mode of any file), to a path not saved in the epoch unless the file is young, keeps every live point restorable |
| `TimeTravel.NewPointStep` | userprog/restorepoint.c:55-61 | a new point is restorable to the files of that moment and disturbs no other |
| `TimeTravel.DeleteStep` | userprog/restorepoint.c:221-299 | deleting any point keeps every other point restorable |
| `TimeTravel.RestoreLeavesOthers` | userprog/restore.c:261-334 | without renames, a path outside the snapshot is exactly as before the restore |
| `TimeTravel.FlagNeverSuppressesSave` | backupfs/file.c:49-67 | in every reachable state a flagged handle's file was modified after the current point |
| `TimeTravel.SavedOncePerEpoch` | backupfs/functions.c:275-308 | rows name present copies, and no two rows the same path and epoch |
| `TimeTravel.StepKeepsCopies` | backupfs/functions.c:53-55 | no operation changes or removes the copy of a surviving row |
| `TimeTravel.SurvivorsKeepCopies` | userprog/restorepoint.c:236-272 | the unlink loop removes no copy that a surviving row names |
| `TimeTravel.StepKeepsCollectable` | userprog/sqlite_db_functions.c:68-83 | every row's rp_time stays a live point not before its access_time, unless the current point is deleted |
| `TimeTravel.RowsStayCollectable` | userprog/restorepoint.c:276-296 | in histories that never delete the current point every rp_time stays live |
| `TimeTravel.DeletionCollectsGarbage` | userprog/restorepoint.c:276-286 | after any history a deletion collects exactly the rows that no surviving point selects and whose rp_time is live |
| `Exactness.WriteUndoneExactly` | backupfs/file.c:47-68 | a write is undone, whatever it wrote, iff mtime precedes the point, ctime does not follow it, and the flag is clear |
| `Exactness.OneOperationExactly` | userprog/restore.c:262-334 | right after a point, one operation is undone iff it is harmless: no rename in the code's mode, only one to a free path as intended, never a refused one, truncate(2) only when it changes nothing |
| `Exactness.AcceptedRecordNeeded` | backupfs/inode.c:152-155 | an unlinked file comes back iff its record was accepted |
| `Exactness.SecondSaveOverwrites` | backupfs/functions.c:275-299 | unlink, rename onto the same path, then any second save of it: in either mode the path comes back right iff both files held the same |
| `Exactness.LateRecord` | userprog/backup.c:356 | a record of an earlier epoch stored now leaves its file right at the current point iff the file has not changed since, and changes nothing with its own stamp |
| `Operations.OperationExactly` | userprog/restore.c:262-334 | from any state of a history without restores, one more operation leaves every live point restorable on the mounted volume iff it renames nothing a live point has seen, destroys no version that one has, and puts no old file where a restore reads from under it |
| `Operations.RenameExactly` | userprog/restore.c:262-273 | a rename, or the record of a refused one, is undone for all live points iff none has seen the file, nor another content at the target, and no point needs a copy of the target that restoring over the old file would spoil |
| `Restore.RestoreRefines` | userprog/restore.c:238-383 | the loop over files computes the replay of contents, up to moved-aside copies |
| `Restore.RestoreFrame` | userprog/restore.c:108-126 | a path no selected row names keeps its file, content and times |
| `Restore.RowPath` | userprog/restore.c:262-368 | what one row leaves at its path, kind by kind: its copy or what was there, with the row's access time as mtime; where the copy is missing an UNLINK or RENAME row leaves nothing |
| `Restore.RowDisplaces` | userprog/restore.c:108-126 | UNLINK and RENAME rows keep the file they find at their path unchanged under the path, a dot and the time; other rows move nothing aside |
| `Restore.DisplacedKept` | userprog/restore.c:262-307 | at the end of the loop, in either mode, a file that the only row about its path displaces, RENAME rows included, is there unchanged under its moved-aside name |
| `Restore.SecondDisplacement` | userprog/restore.c:117-122 | of two files displaced from one path in the same second the later one takes the name of the earlier |
| `Restore.ReplaySame` | userprog/restore.c:258-334 | replay depends on the saved copies only at the selected rows, and not on rp_time |
| `Rewind.RestoreUnderHooks` | userprog/restore.c:245-383 | the hooks that a restore sets off do not change the files it computes |
| `AfterRestore.RestoreKeepsPointsExactly` | userprog/restore.c:292-307 | after any history without restores, a restore keeps every live point restorable by a second one iff no UNLINK row it replays finds a file that some live point has seen, and every point takes alike what the second restore would read from under a restored file |
| `AfterRestore.ReadableExactly` | backupfs/file.c:223-243 | the second restore reads its sources unspoilt iff, as could be seen before the first, both points take the same from the file or from the copy of the current epoch |
| `AfterRestore.BackAndForth` | backupfs/file.c:223-243 | restoring to one point and then to one that saw the overwritten file brings back the content of the first |
| `AfterRestore.OthersStillRecover` | userprog/restore.c:196-391 | unless such a file is in the way, a second restore brings back any point iff it reads its sources unspoilt, and nothing that old beyond it but restored paths |
| `AfterRestore.InTheWayLost` | userprog/restore.c:108-126 | a file in the way is missing after a second restore to any point that saw it |
| `AfterRestore.SaveExactly` | backupfs/functions.c:275-299 | at any moment of a history with restores, the next write, truncating open or unlink that saves a file keeps every live point restorable iff each point that takes its version from the copy it overwrites takes what the file holds, and the restores read their other sources unspoilt |
| `AfterRestore.DeletionExactly` | userprog/restorepoint.c:221-296 | at any moment of such a history, a deletion keeps every other point restorable iff each of their rows reads its source unspoilt or, where its shared copy goes, finds the same content in place |
| `AfterRestore.EditAfterRestoreExactly` | userprog/restore.c:359-368 | after a restore, an edit keeps every live point restorable iff the restores read their other sources unspoilt, and the file was not restored or every point that takes its version from the copy of the current epoch takes what the file holds |
| `AfterRestore.EditAfterRestore` | userprog/restore.c:359-368 | editing a restored file that was untouched since the current point makes the current point give the older content |
| `Histories.TimeTravelAcrossRestores` | userprog/restore.c:196-391 | over any history with restores at any moment, in which no save or deletion takes from a live point what it needs, the mounted restore to any live point brings back its snapshot iff it reads its sources unspoilt, and no other file that old but at restored paths |
| `Histories.MountedExactly` | userprog/restore.c:245-383 | from any state of such a history the mounted loop brings back the snapshot iff no MODFILE row finds an old file whose save overwrites the copy it reads with something else |
| `Histories.PermittedReads` | userprog/restore.c:196-391 | each restore within such a history brings back its snapshot |
| `Outcome.MountedLeaves` | userprog/restore.c:262-334 | what the mounted loop leaves at each path that a row is about, in any state and for missing copies too |
| `Outcome.MountedElsewhere` | userprog/restore.c:245-383 | any other path keeps its file and times |
| `Outcome.MountedDisplaced` | userprog/restore.c:262-307 | in the mounted loop too a displaced file, under an UNLINK or a RENAME row, is kept unchanged under its moved-aside name |
| `Outcome.RowTimes` | userprog/restore.c:333-368 | what a row of the mounted loop leaves at its path has the row's access time as mtime and was changed now |
| `Kinship.KinStep` | backupfs/file.c:47-68 | every hook and command keeps a volume kin to the one on which restored files were just written |
| `Kinship.DeletionKin` | userprog/restorepoint.c:221-296 | a deletion that takes no copy a row of another live point shares keeps the kinship, though more rows are collected |
| `Histories.RowKin` | userprog/restore.c:292-368 | one row of a restore, hooks and times included, keeps the kinship |
| `Histories.LegalIsLawful` | userprog/restore.c:196-391 | every legal history without restores is one of the histories with restores, and ends in the same state |
| `Histories.RestorePermitted` | userprog/restore.c:292-307 | and a restore may follow it iff no UNLINK row it replays is about a file a live point has seen |
| `LateWrites.LateWritesVanish` | backupfs/file.c:33-79 | after any history with writes through handles of unlinked files, whose moves set no ctime across a live point, a restore gives the files it would give without them |
| `LateWrites.LateWriteExactly` | backupfs/inode.c:155-160 | a file unlinked right after a point and then written through an open handle comes back iff the moved inode has a ctime not after the point, or the write changed nothing |
| `LateWrites.ReplayMends` | userprog/restore.c:222-333 | newest first, rows about saved copies mend every copy before a row uses it |
| `LateWrites.LateWriteStep` | backupfs/file.c:47-69 | the mtime guard and flag save a copy before it is first spoilt in an epoch, for every live point that needs it |
| `Versions.AtMostOneVersion` | userprog/restore.c:222 | when no renamed file was seen by a live point, at most one row of each path is selected for any point |
| `Versions.DisplacedFilesKept` | userprog/restore.c:117-122 | without renames, the file an UNLINK row displaces is found unchanged under its moved-aside name at the end of the restore; for RENAME rows see `Restore.DisplacedKept` and `Outcome.MountedDisplaced` |
| `Table.Select` | userprog/restore.c:222 | exactly the rows whose interval contains the time |
| `Table.SelectConcat` | userprog/restore.c:222 | in their order and as often as they occur |
| `Table.Predecessor` | userprog/restorepoint.c:174-213 | the latest restore point below, 0 when there is none |
| `Table.SelectPreserved` | userprog/restorepoint.c:221-296 | deleting a point leaves the rows selected for any other point the same, in order, but for rp_time |
| `Table.CollectedExactly` | userprog/restorepoint.c:276 | a row is collected iff no surviving point selects it |
| `Table.DeletionKeepsSelectable` | userprog/restorepoint.c:276-296 | every row left is selectable by its own rp_time, a surviving point |
| `Table.DeletionKeepsDistinct` | userprog/restorepoint.c:276-286 | the rows left are merged survivors and share no saved copy |
| `Table.DeletionsClosedForm` | userprog/restorepoint.c:174-296 | after any deletions the table is the closed form over the surviving points |
| `Table.ClosedMembers` | userprog/restorepoint.c:174-296 | closed form: an original row is present iff a surviving point lies in its interval, stamped with the latest surviving point not after its rp_time |
| `Table.DeletionsCommute` | userprog/restorepoint.c:174-296 | the order of deletions does not matter |
| `Table.ZeroAccessTimeOutlives` | userprog/restorepoint.c:203-208 | deleting the only point empties the table iff the row's access time is positive |
| `Mount.MountedVolume.Backup` | backupfs/functions.c:275-308 | copy, then log, and nothing else changes |
| `Mount.MountedVolume.InsertIntoTable` | userprog/sqlite_db_functions.c:68-83 | one row appended: current point, kind, path, name and the file's ctime |
| `Mount.MountedVolume.WrapfsOpen` | backupfs/file.c:198-268 | truncation leaves the file empty with both times now, after saving an old one under its path and the current point and logging it; without truncation files, copies and rows are as before |
| `Mount.MountedVolume.WrapfsWrite` | backupfs/file.c:33-79 | an old file not yet saved through this handle is saved and logged, then the content is stored; files, handles, copies and rows are given one by one |
| `Mount.MountedVolume.WrapfsFileRelease` | backupfs/file.c:283-295 | forgets the handle only |
| `Mount.MountedVolume.WrapfsUnlink` | backupfs/inode.c:98-190 | an old file is logged and its content kept as the copy of the epoch, a young one just removed; its handles lose their path |
| `Mount.MountedVolume.WrapfsRename` | backupfs/inode.c:378-501 | an old source is logged with its target; the target then holds the file with its times, unless the rename was refused; handles follow the file |
| `Mount.MountedVolume.WrapfsSetattr` | backupfs/inode.c:579-654 | size, mode and times reach the file as asked and save nothing |
| `Mount.MountedVolume.CreateRestorePoint` | userprog/restorepoint.c:25-79 | the point is added and becomes the current one; nothing else changes |
| `Mount.MountedVolume.NextUpdateTime` | userprog/restorepoint.c:174-213 | computes the predecessor |
| `Mount.MountedVolume.DeleteRestorePoint` | userprog/restorepoint.c:153-314 | the point goes, rows are deleted and merged, and exactly the copies named by rows of the point with access time above its predecessor are unlinked |
| `Mount.MountedVolume.CheckForExist` | userprog/restore.c:108-126 | moves an existing file to path, dot, timestamp, and nothing when there is none |
| `Mount.MountedVolume.RestoreBackup` | userprog/restore.c:196-391 | the loop as written computes the replay of the selected rows, newest first |
| `Mount.MountedVolume.RestoreBackupMounted` | userprog/restore.c:196-391 | the loop, with every system call going through the hooks, computes the hooked replay |
| `Mount.MountedVolume.CreateCopyMounted` | userprog/restore.c:183-193 | cp as the hooks see it: open with truncation or create, write, close |
| `Decimal.AtoiDec` | userprog/backup.c:356 | atoi undoes %d for every integer |
| `Decimal.DecShortest` | userprog/restore.c:119 | %d prints a minus sign for negative numbers only and no leading zero |
| `Decimal.AtoiSkips` | userprog/backup.c:356 | atoi skips blanks and one plus sign and stops at the first character that is no digit |
| `Records.RecordRoundTrip` | userprog/backup.c:356 | the columns the daemon stores are the values the hook printed |
| `Records.RecordClean` | backupfs/functions.c:306-307 | only mount, path and saved name can break the framing of a record |
| `Parser.ParsesBackExactly` | userprog/backup.c:50-117 | a printed record comes back unchanged iff no field holds a separator and the last is not empty |
| `Parser.ParseUndoesPrint` | userprog/backup.c:50-117 | whole records and an unfinished tail: exactly their fields come out and exactly the tail stays |
| `Parser.StopsAtGarbage` | userprog/backup.c:60-98 | behind whole records a byte that opens none ends the scan, and no later record of that data is read |
| `Parser.ParseEventBuffer` | userprog/backup.c:50-117 | on any data with a bracket the in-place loops compute the fields and slide what the code copies to the front, overlapping as it may |
| `Parser.FramedSlides` | userprog/backup.c:102-114 | on framed data that is exactly the bytes behind the last bracket, whatever follows the data |
| `Parser.CopyFields` | userprog/backup.c:68-92 | the two inner loops compute one record's fields and where scanning goes on |
| `Parser.MoveResidue` | userprog/backup.c:102-114 | as many bytes as were left unscanned move from behind the last bracket to the front, up to a NUL |
| `Stream.CutStream` | userprog/backup.c:102-109 | any cut of a stream of records is whole records and a bracket-free start of the next |
| `Stream.ParseStream` | userprog/backup.c:303-338 | one parse of a cut stream that holds a bracket stores at least one record, eight fields a row, and carries less than the next record |
| `Stream.GroupsExactly` | userprog/backup.c:338 | the i-th row holds fields 8i to 8i+7, and fewer than eight fields left over make no row |
| `Stream.FieldTableHolds` | userprog/userprog.h:54-56 | records of 32 bytes or more in one buffer never overflow the field table, in rows or in columns |
| `Chardev.Slot` | chardev/chardev.c:94-101 | positions wrap as the remainder by SIZE |
| `Chardev.Device.CharDevBufferInsert` | chardev/chardev.c:67-119 | the whole message is appended, or nothing when it does not fit or the lock is interrupted, with the code's return values |
| `Chardev.Device.DeviceRead` | chardev/chardev.c:229-236 | exactly the first min(length, count) waiting bytes move to the caller, wrap-around included |
| `Chardev.Device.DeviceOpen` | chardev/chardev.c:144-156 | opens only a closed device |
| `Chardev.Device.DeviceIoctl` | chardev/chardev.c:286-307 | refines one step of the calls that set the time |
| `Chardev.EpochFixedExactly` | chardev/chardev.c:123-133 | the hooks stop following the clock iff some call has set a non-zero time, and then use the last one set |
| `Daemon.BackupDaemon.ReadBehindCarry` | userprog/backup.c:267 | the read fills the buffer behind the carried bytes |
| `Daemon.BackupDaemon.Turn` | userprog/backup.c:262-338 | one turn stores the rows of the parsed data and carries what the parser slid to the front, the residue when the data are framed; a full buffer stops the daemon |
| `Daemon.TurnIsASchedule` | userprog/backup.c:262-338 | the turn is the run of the pipeline's single steps without interference |
| `Daemon.AsleepTurn` | chardev/chardev.c:200-236 | a daemon asleep in its read, woken when bytes wait, does in its turn exactly what a waking one does |
| `Daemon.EmptyRingSleeps` | chardev/chardev.c:200-226 | a read on an empty ring sleeps with the lock free, and a signal stops the daemon there |
| `Daemon.Delivered` | userprog/backup.c:262-366 | one record through an idle, empty pipeline is accepted, stored as one row, and leaves nothing behind |
| `Pipeline.DaemonStoresAcceptedRecords` | userprog/backup.c:262-366 | in every interleaving the stored rows are, in order, the first accepted records, all of them once nothing is in between; the assertion holds and the next read is not empty |
| `Pipeline.StreamStaysAligned` | chardev/chardev.c:83-102 | carried, read and waiting bytes are always whole records and the part of one insertion under way |
| `Pipeline.OnlyInterruptsStopTheDaemon` | userprog/backup.c:277-290 | without signals no read of the daemon comes back empty |
| `Pipeline.AssertionHoldsExactly` | userprog/backup.c:57-59 | the assertion holds in every interleaving iff every record the ring can hold fits the daemon's buffer |
| `Pipeline.InsertExactly` | chardev/chardev.c:67-119 | from any state with the lock free, an undisturbed insert appends the record and its text iff the bytes waiting leave room for all of it, and otherwise changes neither |
| `Pipeline.Step` | chardev/chardev.c:67-262 | every single step of hooks and daemon keeps the stream, lock and space invariant |
| `DeviceOpen.ReadsReturnDataExactly` | chardev/chardev.c:144-236 | uninterrupted reads of a set of processes return data in every interleaving iff open is one step or there is at most one process |
| `DeviceOpen.RaceStarvesReader` | chardev/chardev.c:147-151 | any two processes have a schedule in which both opens succeed and one read comes back empty |
| `DeviceOpen.OpenAndRelease` | chardev/chardev.c:144-174 | whoever opens the closed device holds it, others are refused, and release closes it |
| `DeviceOpen.ReadTakes` | chardev/chardev.c:195-236 | an undisturbed read returns the lesser of the length asked for and the bytes waiting, and takes as many |
| `HexNames.FromHexToHex` | backupfs/functions.c:333-358 | decoding undoes encoding for every byte string |
| `HexNames.BackupfsToHex` | backupfs/functions.c:333-339 | writes the hex text and a NUL behind it, nothing further |
| `HexNames.BackupfsFromHex` | backupfs/functions.c:348-358 | writes the value of each pair of characters, whatever they are, and nothing further |
| `HexNames.OddPairs` | backupfs/functions.c:348-358 | pairs that are not lower-case hex: upper case counts, a sign negates, 0x is a prefix, other characters end the number |
| `HexNames.SavedNameIsDigest` | backupfs/functions.c:414-415 | 32 bytes in hex cut at 32 characters are the hex of the 16-byte digest |
| `HexNames.SavedNamesCollideExactly` | backupfs/functions.c:275-285 | names that fit a page are equal iff path and epoch are, or MD5 collides |
| `HexNames.LongPathsLoseTheirEpoch` | backupfs/functions.c:275 | a path that fills the page has one name for all epochs |
| `HexNames.EpochLostExactly` | backupfs/functions.c:275 | all epochs of a path share one key iff the path and a dot fill the page |
| `MakePath.FileTree.MakePath` | userprog/restore.c:155-180 | no entry that was there changes; what is new are directories at proper prefixes of the path; it fails iff at one of these prefixes there is a regular file, or nothing and mkdir cannot make it; on success all of them are directories |
| `MakePath.FileTree.MkdirParent` | userprog/restore.c:128-146 | succeeds iff the path is a directory or mkdir can make it one; existing entries never change, a regular file there makes it fail |
| `MakePath.ParentsAreCuts` | userprog/restore.c:163-172 | the parents are the prefixes cut before a slash that ends a component |
| `MakePath.RepeatedSlash` | userprog/restore.c:165 | a doubled slash changes no component |
| `MakePath.ComponentsOfJoined` | userprog/restore.c:163-172 | reading a path joined from components with slashes gives the components back |
| `Delivery.DaemonStoresTheLog` | userprog/backup.c:338-363 | whatever the schedule, the i-th stored row holds, column by column, the i-th logged row's type, mount point, path, saved name, target or N/A, mode, owner, group and access time |
| `Delivery.ColumnsDetermineRow` | userprog/backup.c:356 | eight columns stand for one row and owner only, unless MD5 collides |
| `Delivery.PrintedDeterminesRow` | backupfs/functions.c:306-308 | two rows that print alike are the same, unless MD5 collides |
| `Joined.TableIsTheLog` | userprog/backup.c:338-363 | however hooks, commands and pipeline interleave, the stored table is, row by row, stamp by stamp and column by column, the front of the table of the history, and all of it once drained |
| `Joined.HookIsStored` | userprog/backup.c:262-366 | when nothing is under way, any hook's row can be carried to the table by permitted steps, as one row stamped with its point, and then nothing is under way again |
| `Joined.SelectionMatches` | userprog/restore.c:222 | a restore of the stored table selects the rows that a restore of the log selects |
| `Joined.DeletionMatches` | userprog/restorepoint.c:276-296 | the deletion statements on stored text do what they do on the log |

## Left out

- `LateWrites.LateWritesVanish`: histories without restores; the hooks under the final restore's own copies into the save directory are not part of it.
- `Mount.MountedVolume.WrapfsWrite`: the handle has a path; writes through handles of unlinked old files are modelled on values, in `LateWrites`. A handle of a young unlinked file reaches no path at all.
- A write through a handle of an unlinked file whose copy has been collected, or which was young: the copy command of the hook then fails, which changes nothing.
- Directories in histories: a directory's mtime changes with its children, so the guard does not identify its version; RMDIR rows are kept, selected, merged and collected like the others, and their replay leaves files' contents alone.
- `make_path` inside a restore: paths of a volume are flat keys there, so a regular file sitting where a parent directory belongs is not part of the time-travel theorems.
- chmod, chown and the restored permissions; mode, uid and gid travel through the pipeline but are not part of a volume.
- `Histories.TimeTravelAcrossRestores`: saves and deletions that take from a live point what it needs are excluded; what they cost is `AfterRestore.SaveExactly` and `AfterRestore.DeletionExactly`.
- `AfterRestore.RestoreKeepsPointsExactly`: the history before the first restore contains no restore; for others `Histories.TimeTravelAcrossRestores` gives one direction.
- `Kinship.KinStep`: saves that overwrite what a live point would miss are excluded, and deletions that take a shared copy.
- `TimeTravel.StepKeepsCollectable`: deletion of the current point is excluded, because later rows are then stamped with a point that no longer exists; restoring still works and is covered by `TimeTravel.DeleteStep`.
- `Chardev.Device.DeviceRead`: starts with the lock held; the unlock, wait and relock before it are steps of `Pipeline` and `DeviceOpen`.
- `Parser.ParseEventBuffer`: data for which the copy loop reads past the end of the buffer are excluded; so are data without a bracket, on which the code's assertion fails.
- `Daemon.BackupDaemon.Turn`: the same data are excluded, and bytes are waiting when it reads; the wait for them is a step of `Pipeline`.
- `Mount.MountedVolume.InsertIntoTable`: the row is stamped in the hook's own step; that the daemon stamps it later is the subject of `Joined`.
- `Mount.MountedVolume.CreateRestorePoint`: the kernel and the daemon learn the new time in the same step.
- `Mount.MountedVolume.RestoreBackup`: the loop alone; its system calls go through the hooks in `Mount.MountedVolume.RestoreBackupMounted`. `make_path`, chmod and chown are left out.
- `Mount.MountedVolume.RestoreBackupMounted`: `make_path`, chmod and chown are left out.
- The field table is a growing sequence; its bound is `Stream.FieldTableHolds`.
- Integers are unbounded; `%d` of a uid above the signed range is not wrapped.
- Handle errors of SQLite: the branch for a missing predecessor closes the handle it then uses; the queries are modelled as succeeding with predecessor 0.
- Liveness: that a sleeping reader is eventually woken is not stated.
- Lookup, super blocks, mmap, mount enumeration, timers, module loading, logging and the test scripts.
