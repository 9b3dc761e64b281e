# Verified model of AcornFS: safe mutation of Acorn disc images

AcornFS mounts Acorn disc images (BeebSCSI DAT/DSC hard discs, DFS floppies, MMB containers) as a userspace
filesystem. This project models the parts that decide whether a writable session can ever lose an image, and
proves what they promise. The catalogue library (Oaknut), FUSE and the operating system are contracts;
everything between them is modelled branch by branch.

All paths below are relative to the root of the repository.

## What is modelled

**Crash-safe sessions.** `DurableStore` is a directory whose entries persist in issue order, whose files are
volatile until synced, and whose sync is a barrier; every operation may fail. `SafePaths` is the atomic
replacement of a private text file, `Recovery` the copying of one checkpoint or restore file, and `Sessions` the
whole life of an image: creating a checkpoint, changing the image, closing, restoring and discarding, with every
state of the disk recorded. `Checkpoint` says what must hold of the disk at each instant and what a loss of
power then leaves; `CheckpointSteps` and `SessionSteps` show that each step keeps it; `Lifetimes` runs any
number of processes, each cut short anywhere by dying or by a loss of power, and says what a manifest found
afterwards vouches for. A pair checkpoint and a single-image checkpoint (src/acornfs/recovery.py:188-383) are
one model, a list of members. `MountProtocol` is the daemon and the unmounting command as two interleaved
processes, and `Daemon` joins the layers: a handle layer over an image over a disk, driven from the first
request to the verdict of the command.

**Atomic mutation.** `Transactions` is before-image capture and replay; `AtomicMutation` is the guarded mutation
around it, with a fault at any stage, the failure latch, the old-map disc ID and the final close.
`IndexedSession` is such a session with the directory index as its memory.

**Index, caches, preflight.** `Namespace` and `MountedIndex` are the three dictionaries behind inodes and paths,
and `Cataloguing` what indexing a catalogue must leave in them; `ContentCache` is the byte-bounded cache and the
sector-range path; `Preflight` is the allocation check.

**Integrity and repair.** `Extents` and `Sweeps` are the interval sweeps, `DirectoryWalk` and `WalkTheorems` the
catalogue walk, `Validation` the whole report; `RepairPlan`, `CatalogueRepair` and `Repair` plan and apply
repairs, faults included, and `DiscBytes` shows which bytes of the image they can reach.

**Handle layer and containers.** `ReadAhead`, `HandleLayer` and `FuseOperations` are read-ahead buffers and
shared write buffers, and `HandleHistory` compares whole histories with an unbuffered layer; `MmbLayout`,
`MmbPaths` and `MmbMount` are the repeated-extent container. `Sets`, `Lists`, `Options` and `Decimals` hold what
several of them share.

## Where the code keeps less than one might expect

Each of these is stated in the model with an input that shows it and, where the code is right in some
cases, with the exact condition.

* An exception that is not an `Exception` (an interrupt) passes both guards of a mutation: the image may be
  left half-changed with the session still accepting writes (`AtomicMutation.InterruptEscapes`).
* The commit of index and cache runs outside the rollback, under the outer guard only. A domain error there
  leaves the image committed, the index behind it, and the session unlatched: `AtomicMutation.CommitEscapes` is a
  container session in which a byte was written. On a container with more slots than the mount cache holds, the
  join of a new path may have to identify its slot again and raise one. The index then lacks the new node and has
  used up one inode number, and is still a tree (`IndexedSession.TornIndex`, `IndexedSession.RunKeepsTree`). A
  mutation is accounted for exactly if no fault is an interrupt and none is a domain error inside the commit
  (`AtomicMutation.AccountedExactlyWhereGuarded`).
* A replacement whose preflight cannot read the allocation latches the session, though nothing was written and the
  attempt is rolled back (`AtomicMutation.PreflightLatches`).
* Discarding a checkpoint does not sync the image. After a process died with unflushed changes, a discard
  followed by a loss of power can leave no checkpoint and neither the old nor the accepted bytes
  (`Lifetimes.DiscardThenLose`, `Lifetimes.DiscardMayLose`); the accepted bytes are durable exactly if the image
  files were already on disk (`Lifetimes.DiscardIsDurableExactly`).
* Power lost while a clean close removes its checkpoint may bring the checkpoint back, with the files of before
  the session (`Lifetimes.InterruptedCloseRevives`). A manifest found ready therefore vouches for what the
  image held when last no ready manifest could be found (`Lifetimes.BackupsInHistory`).
* Asking for reserved-tail padding where it is not allowed latches the session, because the refusal is raised
  inside the guard and is not one of the errors it passes (`Repair.RepairSession.PadReservedTail`).
* Renaming a file over one with pending metadata, or deleting a file whose truncation failed to commit,
  leaves pending state for an inode that no longer exists; the closing flush then fails on a healthy session
  (`FuseOperations.ReplacedFileBlocksShutdown`, `FuseOperations.DeletedTruncationBlocksShutdown`). Absent
  image faults the flush succeeds exactly if every pending inode is still there
  (`FuseOperations.Operations.FlushPending`).
* The unaccounted ranges are the complement of the extents exactly if no extent starts past the total
  (`Sweeps.GapRanges`).
* An MMB virtual path that is accepted need not be the path the container prints: it is exactly if the slot
  number has no needless zero and the path does not end in its first separator (`MmbPaths.VirtualOfSplit`).

## What is assumed

* The catalogue library writes only bytes captured before, or lying in sectors that were free before the
  mutation (src/acornfs/core/transaction.py:22-28). Sectors 0 and 1 are never free. Writing one directory back
  touches that directory's sectors only. On an MMB slot the library is handed one window and writes nowhere else.
* What the library has stored is what the catalogue lists when the bytes are read again.
* For the disc ID alone: taken together, the library's writes leave it as it was.
* For the byte-level statements about repairs alone: a directory has at most five sectors, as the fixed root
  extent 2..7 of the walk presumes.
* Its own list of structural problems is unaffected by a directory rewrite, and it refuses to remove a
  directory that is not empty.
* Names are plain display names without dots, of ASCII letters for case folding, and unique within a
  directory regardless of case where repairs are planned.
* One actor at a time works on an image and its checkpoint; a file sync that reports success has reached the
  disk; staged names drawn at random are new.

## Model

| member | source | states |
|---|---|---|
| `SafePaths.WriteAll` | src/acornfs/safe_paths.py:66-75 | for every pattern of short and interrupted writes a return means exactly the content was emitted; at every state on the way the file holds a prefix of it |
| `SafePaths.WriteTemporary` | src/acornfs/safe_paths.py:104-116 | until the rename nothing but the temporary differs; a ready temporary holds the whole content, synced |
| `SafePaths.AtomicWrite` | src/acornfs/safe_paths.py:87-132 | success leaves one possible view, the old one with the name holding the new text; every state passed through is one of four, failure included |
| `SafePaths.OldOrNew` | src/acornfs/safe_paths.py:87-132 | power lost at any of those states leaves the name wholly old or wholly new, and every other name except the temporary untouched |
| `Recovery.FillFile` | src/acornfs/recovery.py:131-138 | the chunk loop copies the source exactly and its counter ends at the size of the source; cancelling only where allowed |
| `Recovery.CopyFile` | src/acornfs/recovery.py:107-154 | a finished copy equals its source and is synced; any other end leaves at most the new file itself behind |
| `Checkpoint.CrashIsSafe` | src/acornfs/recovery.py:196-287 | from every safe state a loss of power leaves a safe state: either a ready manifest with all backups equal to the pre-session files, or image files holding exactly what was promised |
| `Checkpoint.MixedOnlyWhileGuarded` | src/acornfs/recovery.py:480-485 | image files other than the promised ones are on view only while every possible crash finds the ready manifest and its backups |
| `CheckpointSteps.UnlinkIsSafe` | src/acornfs/recovery.py:273-282 | removing the manifest first, and backups only after it, never advertises a checkpoint whose backups are gone |
| `CheckpointSteps.ReadyStage` | src/acornfs/recovery.py:256-264 | installing the ready manifest over the creating one is safe at every stage, because all backups are already synced |
| `CheckpointSteps.CreatingStage` | src/acornfs/recovery.py:220-229 | writing the creating manifest is never seen torn and never as ready |
| `CheckpointSteps.InstallIsQuiet` | src/acornfs/recovery.py:480-482 | if the manifest is not certain to survive, replacing a target changes nothing for a reader and keeps what was promised |
| `Sessions.World.Create` | src/acornfs/recovery.py:196-271 | refused exactly if a manifest is there; success means a surely durable ready manifest, backups equal to the image files, and a progress count equal to their total size |
| `Sessions.World.Complete` | src/acornfs/recovery.py:273-287 | manifest removed and synced before the backups; every intermediate state is safe |
| `Sessions.World.Mutate` | src/acornfs/core/image.py:1061-1107 | a session changes only its first file, in place, and only under a durable ready manifest |
| `Sessions.World.Close` | src/acornfs/core/image.py:1215-1281 | an unclean, unflushed or invalid close leaves the checkpoint exactly as it was; a clean one syncs first, so the final bytes are on disk before the manifest goes |
| `Sessions.World.StageOne` | src/acornfs/recovery.py:386-405 | staging one replacement changes no image file for a reader, whatever fails |
| `Sessions.World.StageAll` | src/acornfs/recovery.py:463-479 | all replacements staged and synced, or cancelled or failed with the image files untouched |
| `Sessions.World.Commit` | src/acornfs/recovery.py:480-482 | success means every possible view shows all original files; each replacement is synced before the next |
| `Sessions.World.Recover` | src/acornfs/recovery.py:408-493 | restored means the pre-session files on disk and no manifest; cancelled means image files and checkpoint unchanged; a checkpoint still being created is refused |
| `Lifetimes.Run` | src/acornfs/recovery.py:188-493 | over any number of sessions and recoveries, each cut anywhere by process death or power loss: every state is safe, the image files change for a reader only under a durable ready manifest, what counts as original changes only to what the image holds while no ready manifest can be found, promises change only to founded ones, and every manifest a crash may find ready has backups equal to the pre-session files |
| `Lifetimes.OriginalIsPreSession` | src/acornfs/recovery.py:196-271 | in any such history the original files of a state are what readers saw when last no ready manifest could be found, or what the history began with |
| `Lifetimes.BackupsInHistory` | src/acornfs/recovery.py:196-287 | so the backups beside any manifest a loss of power may find ready are exactly those files |
| `Lifetimes.InterruptedCloseRevives` | src/acornfs/recovery.py:273-287 | a loss of power during a clean close that brings the older files' checkpoint back |
| `Lifetimes.RestoreAtEveryInstant` | src/acornfs/recovery.py:456-493 | at any instant of a restore a crash leaves the checkpoint with its backups or the original files, and mixed files are seen only while the checkpoint is certain |
| `Lifetimes.RestoreAgain` | src/acornfs/recovery.py:456-493 | restores cut short any number of times by process death or power loss, then one completed or found done, yield exactly the pre-session files |
| `Lifetimes.DiscardIsDurableExactly` | src/acornfs/recovery.py:487-492 | the accepted bytes survive every loss of power if and only if the image files were on disk already |
| `Lifetimes.DiscardThenLose` | src/acornfs/recovery.py:487-492 | a discard run on the disk a dead session left, then a loss of power: no manifest, no backup, and neither version of the image |
| `Lifetimes.DiscardMayLose` | src/acornfs/recovery.py:487-492 | that crash, on the exact disk every completed discard leaves |
| `MountProtocol.SuccessMeansClean` | src/acornfs/cli.py:306-342 | over every interleaving the unmounting command reports success only if everything was flushed, validation passed and a clean close removed the manifest |
| `MountProtocol.EveryRunFromStart` | src/acornfs/cli.py:306-342 | the same from the initial state, with an older manifest pending or not |
| `MountProtocol.VerdictIsExact` | src/acornfs/cli.py:333-341 | once the daemon is gone the verdict is success if and only if a clean close removed the manifest |
| `MountProtocol.System.WaitForShutdown` | src/acornfs/mounts.py:299-305 | waiting ends with the record gone or its process dead, or fails, while the daemon moves between polls |
| `MountProtocol.System.Unmount` | src/acornfs/cli.py:306-342 | the command as a program among arbitrary daemon steps; success implies flushed, validated and cleared |
| `MountProtocol.System.MountImage` | src/acornfs/fuse_adapter/runner.py:48-86 | every way through the mounting call is a run of the machine; a clean close removed the manifest exactly if no exception gets out or only the tidying after it failed |
| `Daemon.MountedSession.Serve` | src/acornfs/fuse_adapter/operations.py:278-558 | with every commit written through to the disk, each request of any history is answered as an unbuffered layer would, short of a latch |
| `Daemon.MountedSession.Leave` | src/acornfs/fuse_adapter/runner.py:74-83 | flush, detach and close: if a clean close removed the manifest, the bytes of the image file list exactly the files readers saw, and a session that found its image on disk leaves them there through any loss of power |
| `Daemon.MountedSession.Run` | src/acornfs/cli.py:306-342 | a whole session under the unmounting command: success means every request was answered right, no manifest is left, and the image file lists exactly the files an unbuffered layer would have ended with, through any loss of power if the session found its image on disk |
| `Transactions.ReplayIsEarliest` | src/acornfs/core/transaction.py:77-80 | replaying in reverse gives every byte the value its earliest capture recorded |
| `Transactions.RestoreUndoesRun` | src/acornfs/core/transaction.py:22-80 | for any interleaving of overlapping captures and permitted writes, restoring brings every sector that was not free back |
| `Transactions.LawfulRunRestorable` | src/acornfs/core/transaction.py:37-80 | the invariant behind it: at every point of the run every non-free byte is unchanged or captured |
| `Transactions.ScriptLeaves` | src/acornfs/core/transaction.py:22-28 | after any interleaving of captures and writes each byte is the last one written to it, or what it was; captures change none |
| `Transactions.CapturedMeans` | src/acornfs/core/transaction.py:43-45 | a before-image covers exactly its sectors, as far as the image goes, and holds their present bytes |
| `Transactions.SectorTransaction.CaptureSectors` | src/acornfs/core/transaction.py:37-46 | one capture: nothing for an empty or repeated range, otherwise the present bytes appended |
| `Transactions.SectorTransaction.Restore` | src/acornfs/core/transaction.py:77-80 | the in-place loop equals the replay function, also when a fault stops it early |
| `Transactions.SectorTransaction.AdvanceDiscId` | src/acornfs/core/transaction.py:82-97 | the two identity bytes advance by one modulo 65536, carrying over, and only map bytes change |
| `Transactions.RestoreFile` | src/acornfs/core/transaction.py:143-150 | succeeds exactly if the backup has the image's length, and then the image is the backup for any chunk size |
| `AtomicMutation.EveryFaultAccounted` | src/acornfs/core/image.py:1061-1147 | wherever a guarded exception strikes, commit included, image, index and cache changed together, or none did, or the session is latched |
| `AtomicMutation.AccountedExactlyWhereGuarded` | src/acornfs/core/image.py:1071-1127 | that holds for a kind of exception if and only if it latches, or is a domain error outside the commit |
| `AtomicMutation.CommittedBytes` | src/acornfs/core/image.py:1083-1107 | once the image has committed, every byte of a whole-file session and every byte apart from the four of map bookkeeping of a container session is the last one the mutation wrote there, or the one before; the map has its new checks |
| `AtomicMutation.CommittedDiscId` | src/acornfs/core/image.py:1087-1089 | the disc ID committed is the one the mutation left and one more, modulo 65536 |
| `AtomicMutation.OutcomesMean` | src/acornfs/core/image.py:1061-1127 | when a mutation is refused, committed, torn, rolled back or latched, by where it was stopped and for which adapter; what then becomes of index, cache, commit count and latch |
| `AtomicMutation.FaultsAnswer` | src/acornfs/core/image.py:1092-1127 | what a fault before the commit turns into, by its kind and by how the undoing fares |
| `AtomicMutation.CommitEscapes` | src/acornfs/core/image.py:1106-1127 | a container session in which a byte was written and committed, and a domain error from the commit of the index then leaves the index unchanged and the session unlatched |
| `AtomicMutation.InterruptEscapes` | src/acornfs/core/image.py:1076-1127 | an interrupted mutation that leaves a changed byte and an unlatched session |
| `AtomicMutation.PreflightLatches` | src/acornfs/core/image.py:589-601 | a preflight that fails latches the session, and the attempt is rolled back all the same |
| `AtomicMutation.LatchIsForever` | src/acornfs/core/image.py:1041-1050 | after the latch no run of attempts changes anything |
| `AtomicMutation.LatchNeverClears` | src/acornfs/core/image.py:1041-1050 | a session found unlatched was never latched before |
| `AtomicMutation.DiscIdCountsCommits` | src/acornfs/core/image.py:1076-1107 | unlatched, the disc ID is its initial value plus the number of mutations whose image committed, modulo 65536 |
| `AtomicMutation.LatchedRunKeepsCheckpoint` | src/acornfs/core/image.py:1215-1281 | a session that latched anywhere keeps its checkpoint however it is closed |
| `AtomicMutation.WritableImage.RunAtomic` | src/acornfs/core/image.py:1061-1127 | the guarded mutation over the mapped image equals the step function that the theorems above and below are about, for both adapters and every fault, those of the preflight and of the commit included |
| `AtomicMutation.WritableImage.Close` | src/acornfs/core/image.py:1215-1281 | the checkpoint is given up exactly if the close is clean, unlatched and every closing step worked |
| `IndexedSession.RunKeepsTree` | src/acornfs/core/image.py:1061-1127 | over every run of mutations, stopped at any stage by anything but an interrupt of a commit, the index stays one rooted tree and inodes are never reused |
| `IndexedSession.TornIndex` | src/acornfs/core/image.py:728-746 | an addition whose commit is torn leaves the index as it was with one inode number used up |
| `Namespace.PathsAreUnique` | src/acornfs/core/image.py:722-746 | in a well-formed index two nodes with one path are one node |
| `Namespace.BelowByText` | src/acornfs/core/image.py:890-895 | lying below a directory by parents and by path prefix are the same thing |
| `Namespace.LookupIsChild` | src/acornfs/core/image.py:424-440 | a lookup finds a child of the directory or nothing, and never misses an exact name |
| `Namespace.LookupMatches` | src/acornfs/core/image.py:424-440 | what is found has the name asked for, or differs from it in case only and no sibling has that exact name; if nothing is found no child matches even regardless of case |
| `Namespace.AddKeepsTree` | src/acornfs/core/image.py:728-746 | adding a node under a free name keeps the three dictionaries one rooted tree |
| `Namespace.DropKeepsTree` | src/acornfs/core/image.py:792-802 | so does dropping a leaf |
| `Namespace.MoveKeepsTree` | src/acornfs/core/image.py:864-895 | so does moving a subtree to a place outside it |
| `Namespace.UpdateKeepsTree` | src/acornfs/core/image.py:509-513 | so does recording a node's new size or lock |
| `Namespace.ApplyKeepsTree` | src/acornfs/core/image.py:728-862 | every create, mkdir, import, remove and rename, refused, failed, torn or done, keeps the tree; a failure changes nothing and a torn addition uses up one inode number; inodes are never reused |
| `Namespace.HistoryKeepsTree` | src/acornfs/core/image.py:748-895 | over every history paths stay unique, prefixes are ancestry, and ancestry has no cycle |
| `Namespace.ValidNameMeans` | src/acornfs/core/image.py:681-717 | a new name is one to ten 7-bit characters without dot, colon, NUL or carriage return |
| `Namespace.AddOutcome` | src/acornfs/core/image.py:748-773 | an addition succeeds if and only if the name is valid and free, the parent a directory, the image agrees and the path can be formed; each refusal is given exactly in its case |
| `Namespace.AddAdds` | src/acornfs/core/image.py:728-746 | success adds one node with its parent, name, path, kind and size under a new number at the end of the listing; all other nodes and listings stay |
| `Namespace.RemoveOutcome` | src/acornfs/core/image.py:775-790 | a removal succeeds if and only if the name is found, is of the kind asked for, is not a filled directory and the image agrees; each refusal exactly in its case |
| `Namespace.RemoveRemoves` | src/acornfs/core/image.py:789-802 | success removes the child looked up: gone from every dictionary and from its parent, whose other children keep their order; all other nodes and listings stay |
| `Namespace.RenameRefusedFor` | src/acornfs/core/image.py:804-835 | a rename is refused as locked, as inside itself or as onto a directory only if source or destination is locked, the new parent lies below the source, or the destination is a directory |
| `Namespace.RenameOutcome` | src/acornfs/core/image.py:804-862 | a rename succeeds if and only if nothing forbids it and the image agrees, a replaced directory being empty; onto itself it changes nothing |
| `Namespace.RenameRelinks` | src/acornfs/core/image.py:864-895 | success leaves the node under its new parent, name and path and takes it from its old listing to the end of the new one, a replaced child being cut out; every other listing keeps its order |
| `Namespace.RenameMovesSubtree` | src/acornfs/core/image.py:804-895 | a rename rewrites exactly its subtree's paths, keeps every inode, and removes only a replaced destination |
| `MountedIndex.DirectoryIndex.IndexTree` | src/acornfs/core/image.py:349-422 | indexing any catalogue, endless ones included, ends; it succeeds if and only if depth and number of entries keep the limits and no directory lists a name twice; then the dictionaries are one rooted tree in which every directory shows exactly the entries listed at its path, in order |
| `MountedIndex.DirectoryIndex.Visit` | src/acornfs/core/image.py:363-420 | the same for one directory within the walk, the directories above it left as they were; the check for a cycle never fires |
| `MountedIndex.DirectoryIndex.IsDescendantOrSelf` | src/acornfs/core/image.py:1015-1023 | the parent-chain loop ends and answers ancestry exactly |
| `MountedIndex.DirectoryIndex.FindChild` | src/acornfs/core/image.py:424-440 | the exact name first, then the first match regardless of case |
| `MountedIndex.DirectoryIndex.Create` | src/acornfs/core/image.py:728-773 | index updated only after the image committed; done, exactly the new node is added; the dictionaries become the specified ones, also when the new path cannot be formed |
| `MountedIndex.DirectoryIndex.Remove` | src/acornfs/core/image.py:775-802 | done if and only if the removal is allowed and the image agrees, and then the node found is removed and nothing else; otherwise the dictionaries stay |
| `MountedIndex.DirectoryIndex.RewritePaths` | src/acornfs/core/image.py:890-895 | the in-place loop rewrites every path that starts with the old one and a dot, and no other |
| `MountedIndex.DirectoryIndex.Rename` | src/acornfs/core/image.py:804-895 | all checks in order, then relinking in place: the node moves from its old listing to its new one, a replaced child goes, and paths are rewritten as specified |
| `ContentCache.ReadRange` | src/acornfs/core/image.py:469-485 | whole-sector reading and cutting equals the slice of the file's stored bytes |
| `ContentCache.FileReader.CacheFile` | src/acornfs/core/image.py:1169-1179 | afterwards the size is exact, within the limit, and every cached file equals the stored one; the file is the most recent entry unless it exceeds the limit, the others keep their order, and no more of the oldest go than must |
| `ContentCache.FileReader.ReadFile` | src/acornfs/core/image.py:454-467 | both read paths return the slice of the stored bytes |
| `ContentCache.FileReader.Serve` | src/acornfs/core/image.py:454-513 | over any history of reads, stores, drops and rolled-back mutations the answers are those of a store without caches |
| `Preflight.LargestRun` | src/acornfs/core/image.py:603-618 | the coalescing loop computes the length of the longest contiguous run |
| `Preflight.RunIsFit` | src/acornfs/core/image.py:589-601 | the run looked for is a place from which on every sector a byte of the new contents falls in is wholly free or belongs to the old ones |
| `Preflight.PreflightFileSize` | src/acornfs/core/image.py:569-620 | accepted if and only if the new size is nothing or such a place exists |
| `Extents.SortSorted` | src/acornfs/core/validation.py:165-170 | the order the sweeps rely on, with nothing lost or added |
| `Extents.ExactCoverLength` | src/acornfs/core/validation.py:536-537 | extents holding every sector exactly once add up to the total |
| `Sweeps.OverlapFindings` | src/acornfs/core/validation.py:165-192 | silent if and only if no sector is claimed twice; every reported range lies in two different extents of the list, those of the owners named |
| `Sweeps.CrossOverlapFindings` | src/acornfs/core/validation.py:195-221 | reports something if and only if some used and some free extent share a sector, even when a list overlaps itself; reported ranges lie in both |
| `Sweeps.GapRanges` | src/acornfs/core/validation.py:224-235 | every hole inside the disc is reported; the ranges are the exact complement if and only if no extent starts past the total |
| `DirectoryWalk.Walker.WalkDirectory` | src/acornfs/core/validation.py:413-477 | the recursive walk ends on any finite graph and equals the walk that the theorems below are about |
| `WalkTheorems.EachSectorReadOnce` | src/acornfs/core/validation.py:433-447 | no directory sector is read twice, cyclic or not |
| `WalkTheorems.EveryReachableEntryExamined` | src/acornfs/core/validation.py:413-477 | every entry of every directory reachable from the root is examined |
| `WalkTheorems.CleanExactlyWhenTree` | src/acornfs/core/validation.py:433-459 | no cycle and no unreadable directory reported if and only if the reachable directories form a readable tree |
| `WalkTheorems.WalkOutputIsVisits` | src/acornfs/core/validation.py:413-477 | the extents and findings are exactly those of the visited entries |
| `WalkTheorems.WarningsAreDeserved` | src/acornfs/core/validation.py:422-432 | an unusual length is reported only at the path of a reachable directory entry of another length, an empty file with a place only at that of a reachable empty file that has one |
| `WalkTheorems.DeservedIsWarned` | src/acornfs/core/validation.py:413-477 | every reachable entry with either fault earns its warning, at its own path where the directories form a tree |
| `WalkTheorems.ExtentsAreOfEntries` | src/acornfs/core/validation.py:408-466 | the used extents are the map, the root and those of the entries that can be reached, each as long as its entry says |
| `WalkTheorems.StructuralIsReachable` | src/acornfs/core/validation.py:433-459 | a cycle or an unreadable directory is reported at the path of a reachable directory entry |
| `Validation.GeometryFindings` | src/acornfs/core/validation.py:238-273 | fatal if and only if the geometry is unsound; otherwise exactly the notes about the tail |
| `Validation.FreeListFindings` | src/acornfs/core/validation.py:360-406 | fatal if and only if an entry is empty, out of range or the list unreadable |
| `Validation.FreeOverlapNamesEntries` | src/acornfs/core/validation.py:362-383 | an overlap reported among the free entries names, by their numbers, two different entries of the map that share the range |
| `Validation.SweepsSilent` | src/acornfs/core/validation.py:513-534 | in-range extents partition the disc if and only if all four sweeps are silent |
| `Validation.PartitionCounts` | src/acornfs/core/validation.py:536-537 | a partition's used and free sectors add up to the ADFS size |
| `Validation.SoundMeans` | src/acornfs/core/validation.py:238-547 | a sound disc in plain numbers: sizes, free entries, directories and the exact partition |
| `Validation.NotesMean` | src/acornfs/core/validation.py:422-477 | in a readable tree the two catalogue warnings stand at exactly the paths of reachable entries with that fault |
| `Validation.ValidateOpenMount` | src/acornfs/core/validation.py:276-547 | safe for write if and only if the disc is sound, every sector then in exactly one extent; the findings that are not fatal are the repairable ones, and in a readable catalogue the two catalogue warnings stand at exactly the paths where a reachable directory has another length or a reachable empty file has a place |
| `RepairPlan.ActionsMean` | src/acornfs/core/repair.py:150-242 | which action addresses which finding, and which actions can be applied |
| `RepairPlan.GroupFindings` | src/acornfs/core/repair.py:245-262 | the dictionary groups exactly the findings each action addresses |
| `RepairPlan.PlanRepairs` | src/acornfs/core/repair.py:245-270 | the plan lists each needed action once, in order, with exactly its codes and paths |
| `CatalogueRepair.NamesSelectFaults` | src/acornfs/core/image.py:920-956 | in a visited directory the reported names select exactly the faulty entries |
| `CatalogueRepair.ReportedTargetsValid` | src/acornfs/core/image.py:907-966 | every reported target resolves and is eligible, so a repair cannot refuse its own report |
| `CatalogueRepair.RewriteFixes` | src/acornfs/core/image.py:920-966 | the rewrite fixes every visited directory and leaves all others as they were |
| `CatalogueRepair.NeedsFixMeans` | src/acornfs/core/image.py:939-956 | a directory entry of another length gets the expected one, an empty file with a place loses it |
| `CatalogueRepair.RewriteRefits` | src/acornfs/core/image.py:920-966 | a rewrite keeps every directory, the number and order of its entries, and all of an entry but the length of a directory or the place of an empty file |
| `CatalogueRepair.RewriteNumbers` | src/acornfs/core/image.py:961-966 | the sequence number of a rewritten directory advances by one modulo 256; other directories are as they were |
| `CatalogueRepair.RepairCuresWalk` | src/acornfs/core/validation.py:413-477 | after it the walk finds the same extents and shape and every finding except the repaired ones |
| `Repair.RepairSession.ApplyCatalogueRepair` | src/acornfs/core/image.py:907-976 | refused only for unfit targets; done, it is the specified rewrite; undone, nothing changed; otherwise latched or escaped; and always writing nothing but the map and the selected directories |
| `Repair.RepairSession.PadReservedTail` | src/acornfs/core/image.py:978-1013 | on every path, faults in growing, syncing and shrinking back included, the size is the old or the new one: new if done, old if rolled back, and otherwise the session is latched or an interrupt got out |
| `Repair.RepairKeepsSound` | src/acornfs/core/repair.py:378-395 | a catalogue repair keeps a sound disc sound, keeps every extent, and removes exactly its own findings |
| `Repair.PadKeepsSound` | src/acornfs/core/repair.py:378-395 | padding keeps it sound and removes only the tail warning |
| `Repair.PlannedPaths` | src/acornfs/core/repair.py:245-270 | the planned paths are exactly those the walk warned about |
| `Repair.SupportedPlan` | src/acornfs/core/repair.py:59-71 | a plan may be applied exactly if the disc is sound and something repairable was found |
| `Repair.NoneRemaining` | src/acornfs/core/repair.py:396-406 | the closing check for remaining planned codes can never fire |
| `Repair.ApplyRepairs` | src/acornfs/core/repair.py:293-418 | no planned action is refused, the closing check never fires, and completion leaves a sound disc with the same extents on which every reachable directory has the expected length and no reachable empty file has a place, entries otherwise as they were; stopped by a fault it is rolled back and sound, or latched, or escaped; and no byte changes outside the map and the directories with something to repair |
| `Repair.SelectedIsTouchable` | src/acornfs/core/image.py:916-966 | the paths of a report select only directories with something to repair |
| `Repair.FilesKeepTheirBytes` | src/acornfs/core/repair.py:378-395 | every examined file keeps all its bytes through any plan, finished or not, padding included |
| `DiscBytes.ClaimedOnce` | src/acornfs/core/validation.py:408-477 | on a sound disc a sector some entry claims is claimed by no other entry, is not free and lies in the ADFS area |
| `DiscBytes.FaultyMeans` | src/acornfs/core/validation.py:422-477 | a directory has something to repair if and only if it holds a directory entry of another length or an empty file with a place |
| `DiscBytes.FilesAreUntouchable` | src/acornfs/core/image.py:920-966 | no file shares a sector with the map or with a directory a plan may rewrite |
| `DiscBytes.FreeIsUntouchable` | src/acornfs/core/image.py:920-966 | nor does a free sector |
| `DiscBytes.OutsideIsUntouchable` | src/acornfs/core/image.py:920-966 | nor anything past the ADFS boundary |
| `DiscBytes.SoundDirectoriesAreUntouchable` | src/acornfs/core/image.py:920-966 | nor a directory with nothing to repair |
| `ReadAhead.EvictMakesRoom` | src/acornfs/fuse_adapter/operations.py:139-153 | the eviction loop ends with room for the new data and an exact account |
| `ReadAhead.StoreKeepsExact` | src/acornfs/fuse_adapter/operations.py:139-153 | storing keeps the size the sum of live buffers, within the limit, and the list exactly the nonempty ones |
| `ReadAhead.ConsumeKeepsExact` | src/acornfs/fuse_adapter/operations.py:155-173 | so does serving from a buffer, and no other handle's buffer changes |
| `ReadAhead.EvictTakesOldest` | src/acornfs/fuse_adapter/operations.py:145-147 | eviction drops the buffers used longest ago and no more of them than it must; the rest keep order and bytes |
| `ReadAhead.StoreMakesRecent` | src/acornfs/fuse_adapter/operations.py:139-153 | the handle stored for is the most recent afterwards, the others in their order |
| `ReadAhead.ConsumeMakesRecent` | src/acornfs/fuse_adapter/operations.py:155-173 | bytes are served if and only if the request continues the buffer and fits; then the position advances and the handle is the most recent, or out of the list with its last byte; a request that does not fit drops the buffer |
| `HandleLayer.ConsumeIsFaithful` | src/acornfs/fuse_adapter/operations.py:155-173 | bytes served from read-ahead are the file's slice, and what is left still mirrors the file |
| `HandleLayer.StoreIsFaithful` | src/acornfs/fuse_adapter/operations.py:318-333 | what is kept beyond a request mirrors the file |
| `HandleLayer.CommitKeepsSound` | src/acornfs/fuse_adapter/operations.py:496-503 | committing a buffer changes the image and nothing a reader sees |
| `HandleLayer.ReleaseKeepsSound` | src/acornfs/fuse_adapter/operations.py:552-558 | dropping the last handle's clean buffer changes nothing a reader sees |
| `HandleLayer.NothingDirtyShowsImage` | src/acornfs/fuse_adapter/operations.py:525-538 | with nothing dirty the image equals what every reader sees |
| `FuseOperations.Operations.StoreReadAhead` | src/acornfs/fuse_adapter/operations.py:139-153 | the in-place eviction and insertion equal the specified store |
| `FuseOperations.Operations.ConsumeReadAhead` | src/acornfs/fuse_adapter/operations.py:155-173 | the in-place consumption equals the specified one |
| `FuseOperations.Operations.Open` | src/acornfs/fuse_adapter/operations.py:278-295 | refused exactly for missing, read-only or locked files; only truncation changes what is seen |
| `FuseOperations.Operations.Read` | src/acornfs/fuse_adapter/operations.py:297-333 | returns exactly the slice of the inode's visible content, whichever way it is served; a file with a shared buffer even after the image latched |
| `FuseOperations.Operations.ReadSize` | src/acornfs/fuse_adapter/operations.py:318-333 | more than the request is read only from a large enough file once the handle reads on sequentially, and then the read-ahead or the rest of the file, whichever is less |
| `HandleHistory.Serve` | src/acornfs/fuse_adapter/operations.py:278-558 | over every history of opens, reads, writes, truncations, flushes and releases short of a latch, each read is answered as an unbuffered layer would |
| `FuseOperations.SplicedIsOverwritten` | src/acornfs/fuse_adapter/operations.py:349-353 | an overwrite leaves the larger of the old length and the end of the piece: the piece inside, the old bytes around it, zeros in a gap |
| `FuseOperations.Operations.Write` | src/acornfs/fuse_adapter/operations.py:335-354 | what is seen of the file is the larger of its old length and the end of the piece: the piece where it was written, the old bytes elsewhere, zeros in a gap; other files are as before; each refusal is given exactly in its case and changes nothing |
| `FuseOperations.Operations.SetSize` | src/acornfs/fuse_adapter/operations.py:463-494 | the new size is visible at once, old bytes below both sizes and zeros beyond the old one, and stays dirty until its commit succeeds; it succeeds if and only if allowed and committed |
| `FuseOperations.Operations.CommitBuffer` | src/acornfs/fuse_adapter/operations.py:496-503 | only success makes a buffer clean; then the image holds it, and readers see no difference |
| `FuseOperations.Operations.Flush` | src/acornfs/fuse_adapter/operations.py:540-546 | succeeds if and only if what was pending for the file could be committed; then neither buffer nor metadata is pending and the image holds the buffer's bytes |
| `FuseOperations.Operations.Release` | src/acornfs/fuse_adapter/operations.py:552-558 | the handle goes if and only if its flush succeeds, the buffer only with the last handle, and the image then holds a dropped buffer's bytes |
| `FuseOperations.Operations.FlushPending` | src/acornfs/fuse_adapter/operations.py:525-538 | success leaves nothing pending and the image equal to what was visible; absent faults it succeeds if and only if every pending inode still exists |
| `FuseOperations.Operations.Unlink` | src/acornfs/fuse_adapter/operations.py:391-408 | refused as busy exactly for an open file; succeeds if and only if nothing forbids it and pending metadata and removal commit; then its metadata is forgotten and it alone is gone |
| `FuseOperations.Operations.RenameOver` | src/acornfs/fuse_adapter/operations.py:427-461 | succeeds if and only if the destination is not open, both exist and everything commits; then the destination alone is gone, and what was pending for it stays pending |
| `FuseOperations.ReplacedFileBlocksShutdown` | src/acornfs/fuse_adapter/operations.py:427-461 | a healthy session whose closing flush fails after such a rename |
| `FuseOperations.DeletedTruncationBlocksShutdown` | src/acornfs/fuse_adapter/operations.py:463-494 | likewise after deleting a file whose truncation had failed to commit |
| `MmbLayout.ReadLayout` | src/acornfs/core/mmb.py:73-133 | each refusal is given exactly in its case; an accepted layout describes the container |
| `MmbLayout.ListedExactly` | src/acornfs/core/mmb.py:106-132 | a slot is listed if and only if its status is locked or read-write, once, in order, as its entry says |
| `MmbLayout.EntryMeans` | src/acornfs/core/mmb.py:106-132 | where the sixteen bytes of a slot's entry are, how status and title follow from them, and where the slot's window begins |
| `MmbLayout.BootMeans` | src/acornfs/core/mmb.py:92-101 | the four boot slots are sixteen-bit numbers from header bytes k and k + 4, each a slot that exists |
| `MmbLayout.MarkerMeans` | src/acornfs/core/mmb.py:83-84 | markers 0xA0 to 0xAF declare one to sixteen extents, any other marker one; which statuses are known and which formatted |
| `MmbLayout.RegionsTile` | src/acornfs/core/mmb.py:17-22 | headers and slot windows over any number of extents are pairwise disjoint and cover exactly the container |
| `MmbPaths.SplitInverts` | src/acornfs/core/mmb.py:197-210 | splitting a built virtual path gives the slot and inner path back |
| `MmbPaths.VirtualOfSplit` | src/acornfs/core/mmb.py:197-210 | building again from an accepted path gives the same text if and only if the path is canonical |
| `MmbPaths.SplitMeans` | src/acornfs/core/mmb.py:201-210 | a path is accepted if and only if it is an at sign, the decimal number of a listed slot and perhaps a colon and an inner path, and then gives just that slot and that inner path |
| `MmbPaths.NamesAreUnique` | src/acornfs/core/mmb.py:50-53 | two listed slots never share a display name, whatever their titles decode to |
| `MmbPaths.JoinRoot` | src/acornfs/core/mmb.py:253-258 | the name resolves to a slot shown under it, or no slot is |
| `MmbMount.RunLeavesProtected` | src/acornfs/core/mmb.py:307-336 | over every run of mutations headers, locked and unformatted slots keep every byte, and the layout read again is the same |
| `MmbMount.SlotsDoNotInterfere` | src/acornfs/core/mmb.py:307-336 | a run that never addresses a slot leaves its whole window alone |
| `MmbMount.StepIsConfined` | src/acornfs/core/mmb.py:307-336 | one mutation changes bytes only inside the read-write slot it was admitted to |
| `MmbMount.ReadWriteByStatus` | src/acornfs/core/mmb.py:333-336 | the layout's status is the catalogue's, throughout |
| `MmbMount.StepAnswers` | src/acornfs/core/mmb.py:307-336 | each mutation is refused exactly for an unknown path, a slot that is not read-write, a slot directory or a second slot; otherwise it is carried out in that slot's window, byte by byte, and makes its mount the most recent |
| `MmbMount.MmbMount.WriteBytes` | src/acornfs/core/mmb.py:307-310 | a write answers and changes the container just so |
| `MmbMount.MmbMount.SetMeta` | src/acornfs/core/mmb.py:328-331 | likewise a change of metadata |
| `MmbMount.MmbMount.SlotMount` | src/acornfs/core/mmb.py:212-237 | at most the limit of mounts stay open, the one asked for becoming the most recent and the oldest one going; it fails exactly for a slot that is neither open nor recognised |
| `MmbMount.MmbMount.Remove` | src/acornfs/core/mmb.py:312-317 | a slot directory is never removed and nothing changes; otherwise it answers and changes the container as described for every mutation |
| `MmbMount.MmbMount.Rename` | src/acornfs/core/mmb.py:319-326 | with both paths found and the source slot read-write, refused as across slots, without a change, if and only if the slot numbers differ; with equal numbers and a slot that is open or recognised it is carried out, and the writes land in that slot's window |

## Left out

- Catalogue library internals: allocation, directory encoding, checksums and New Map parsing are contracts.
- Content detection, INF parsing, HFE conversion (reduced to whether the export worked), DFS double-sided
  mounts and descriptor parsing.
- Kernel FUSE, mmap, advisory locks, device and inode signatures, modes, timestamps, errno mapping and
  cache invalidation.
- Text of messages, progress percentages, audit files, wall-clock budgets and cancellation of validation.
- The paths of a container's index, which have a colon after the slot and no `$` above it: the index theorems are
  for paths joined by dots. The order in which a directory's entries are indexed is the catalogue's own.
- IndexedSession.RunKeepsTree: an interrupt in the middle of a commit, which may leave the index in any state.
- Preflight.PreflightFileSize: a free-space map that cannot be read; the latch it causes is in AtomicMutation.
- Daemon.MountedSession.Run: requests that create, delete or rename files, and what the command does when the
  daemon has not ended yet, which is in MountProtocol; the image file is written once a request.
- Names in raw and displayed form: one form is modelled, so the display mapping and its inverse are not.
- Acorn metadata values and extended attribute text: only that an update is pending or committed.
- Concurrent actors on one checkpoint: a clean close releases its locks before removing the manifest, and a
  recovery reads the manifest before taking its locks.
- Two recoverable accidents of process identity: reused process numbers, and a record left by a failed
  registration.
- Staleness of an inode captured before a lock is taken in the handle layer: each operation is one step.
- Removing the emptied checkpoint directory, and the operation copies a whole-file transaction keeps there.
- The read-only and lazy branches of the unmounting command, which do not wait for the daemon.
- Repair.ApplyRepairs: failures of the audit file, which stop a plan between two actions like any other fault, and
  what the encoded directories and the map hold byte by byte.
- Decoding of MMB titles and decimal digits outside ASCII: titles are bytes under any decoding, slot numbers
  ASCII decimal of any length.
- Partial progress of a whole-file rollback that fails midway: the session is latched and nothing is claimed
  of the image.
- Recovery.CopyFile: a failed write is allowed to leave any bytes in the new file, not only a prefix.
- MountProtocol.System.WaitForShutdown: the deadline is a number of polls, not a clock.
- Lifetimes.Run: the image's bytes may become anything under a mutation; what a mutation does to them is
  proved in AtomicMutation.
