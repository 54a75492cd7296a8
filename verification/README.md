# NOVA and PMFS: verified models of their consistency machinery

This project models the parts of two persistent-memory file systems, NOVA and PMFS, on which their
crash consistency and space accounting rest, and proves what those parts are for.  The sources are the two
directories `thirdPart/nova-chipmunk-disable-chipmunk-bugs` and `thirdPart/pmfs-chipmunk-disable-chipmunk-bugs`
in their default build: the bug-reproduction macros are off and `metadata_csum` is 0.

Persistence is modelled step by step.  A store reaches the processor's view at once and the medium when
its unit is evicted, which may happen at any time; a fence returns only once everything flushed before it is
durable; a crash keeps what is durable.  The unit is an 8-byte word, or a 64-byte PMFS log entry that its
generation number makes valid.

`Common` and `Arith` hold what several components share.

Most components come in two layers.  A state machine or a set of functions says what the data mean and
carries the theorems; a class with the source's fields and loops is proved against it, method by method.  What a
step or a method does is also stated by what can be seen before and after it, without the functions that define
it.

## Components

- **Snapshots** (`Snapshot`, `SnapshotSafety`, `SnapshotSteps`, `SnapshotTable`).  Epochs, the per-CPU lists of deferred
  frees, linking a deleted snapshot's lists into its successor's, the background cleaner, and a remount that
  retags lists.  Resources are blocks and inodes; a page of a list holds 127 entries.  The history of every
  life that ended in a free is kept, so that "freed only when no snapshot can see it" is a statement about all
  runs.
- **PMFS undo journal** (`PmfsLog`, `PmfsCrash`, `PmfsAtomicity`, `PmfsRecovery`, `PmfsJournal`,
  `PmfsSteps`).  Any number of open, committed and aborted transactions share the ring.  The specified data
  change at the moment a commit entry becomes durable; recovery after a crash at any step must find exactly
  them.  Recovery may itself be cut short.  The journal's methods, on a ring in place, are runs of that state
  machine.  "No entry of before the crash is valid afterwards" is stated as `Quiet`: each slot's generation lies
  below the one that slot will be checked against.
- **NOVA file log** (`FileLog`, `FileKeeps`, `FileCompact`, `FileSafety`, `FileSteps`, `FileOps`).  Write entries with
  `num_pages`, `invalid_pages` and `reassigned`, the index from page offsets to entries, overwrite and
  truncate with their grouping into runs, and the replay at mount.  No operation leaves blocks past the end
  of the file.
- **Recovery scan** (`FileScan`, `FileScanOps`).  The passes with a ring of limited width that rebuild the
  bitmap of used blocks, for every width, with a parameter for the blocks that snapshots keep.
- **Garbage collection** (`LogPages`, `Gc`, `GcThorough`).  The page chain, fast collection by unlinking and
  thorough collection by copying, with what a crash could leave after each store of a pointer and after each entry
  copied.  Which pages go back to the free list is part of the result.
- **Lite journal** (`LiteJournal`, `LiteAtomicity`, `LiteRecovery`, `LiteJournalOps`, `LiteJournalRing`).
  Rings of old words for any number of CPUs; the journaled sections of create, link, unlink and rename with the
  byte layout of inodes and dentries; recovery as a state machine of its own.
- **NOVA free lists** (`Ranges`, `RangeEdits`, `FreeSearch`, `FreeList`, `FreeListSafety`).  The search tree as its nodes in
  key order; a search may take any path that order allows, so the results hold for every balancing.
- **PMFS block list** (`PmfsBlocks`).  Aligned first fit and freeing with a hint.
- **PMFS block tree** (`Radix`, `RadixCut`, `RadixGrow`, `RadixShrink`, `RadixTree`).  The pages of 512
  pointers live in one map from block number to content and are changed in place; a ghost map from positions
  to blocks gives their meaning and rules out sharing.
- **Parity** (`Parity`, `ParityOps`, `ParitySlots`).  Stripe parity on bytes, recovery of a scribble, and where
  parity and checksums are kept on a device of any size.
- **Mounting** (`MountLists`, `MountCycle`).  The free lists from the bitmap of used blocks and from the saved log
  of ranges; the whole cycle of taking log pages from the lists, saving, loading and giving the pages back.

## Where the code falls short of what one would expect

Each of these is a lemma with its exact condition or a concrete state.

- Lite journal recovery flushes the undone words without a fence and then stores the tail
  (`journal.c:182-184`).  Where flushes are not ordered with later stores, the tail can become durable first, and a
  second crash at that moment leaves a torn transaction: `LiteRecovery.EvictExact` for when,
  `LiteRecovery.TailOvertakesWords` for a run of journal, crash and recovery that gets there.
- A PMFS file that gets its first blocks past block 512 keeps an empty page under its root
  (`inode.c:519-550`).  Truncating away all of its data, but not to less than 512 blocks, leaves that root, and the
  assertion at `inode.c:358` fires: `RadixTree.Inode.WriteThenTruncate` from an empty inode, with the condition;
  `RadixTree.Inode.TruncateBlocks` has the condition for any tree.
- The unrolled parity loop advances the block pointer (`parity.c:216`).  On a processor without the
  checksum instruction the checksums are then computed from the moved pointer (`parity.c:248-250`):
  `ParityOps.CsumsRight` for when they are right, `ParityOps.CsumsWrong` for a block whose checksums are not.
- The number of checksum blocks is rounded down (`balloc.c:72-73`), so that on small devices some allocatable
  blocks have no checksum slot: `ParitySlots.CsumSlots`, `ParitySlots.CsumSlotMissing`.
- `nova_alloc_superpage` computes a left margin of 512, never 0, for a node that starts on a 2 MB boundary
  (`balloc.c:620-621`), so it skips the first 2 MB of such a node; the branches for an empty margin are
  unreachable and not modelled.  A free aligned run may be missed: `FreeList.SuperpageMissed` says when,
  `FreeList.SuperpageMissedHere` where.
- When the search for a range to be freed ends at the node before it, the node after it is not examined
  (`balloc.c:338-348`), so a range that overlaps free blocks may be freed again.  It is refused whatever the shape of
  the tree if and only if its first block is free, or it overlaps and no node lies below it:
  `FreeSearch.RefusedAlways`.  `FreeSearch.OverlapUnnoticed` shows both outcomes on one list, and
  `FreeList.List.FreeBlocks` what either leaves.
- Deleting the newest snapshot while the cleaner is pointed at it leaves the cleaner with a snapshot that no longer
  exists: `SnapshotSafety.DeleteKeepsTarget` gives the exact condition, `SnapshotSafety.TargetLost` a run that gets
  there.

## Model

| member | source | states |
|---|---|---|
| SnapshotSafety.SnapshotSafe | thirdPart/nova-chipmunk-disable-chipmunk-bugs/snapshot.c:486-511 | In every reachable state each resource is exactly one of free, live or deferred once; nothing a live snapshot can read is free; no life `[created, dropped)` that ended in a free covers a live snapshot |
| SnapshotSafety.DeferredPlacement | thirdPart/nova-chipmunk-disable-chipmunk-bugs/snapshot.c:546-560 | Every deferred resource sits on the list of the smallest live snapshot that is at least its create epoch |
| SnapshotSafety.TagsNeverDecrease | thirdPart/nova-chipmunk-disable-chipmunk-bugs/snapshot.c:423-479 | Page tags never decrease along a list and the last page carries the snapshot's own epoch |
| SnapshotSafety.Drained | thirdPart/nova-chipmunk-disable-chipmunk-bugs/snapshot.c:112-176 | Once no snapshot is left, the free blocks are exactly all that are not live, each once, whatever cleaner wake-ups were lost |
| SnapshotSafety.DeleteableUnseen | thirdPart/nova-chipmunk-disable-chipmunk-bugs/snapshot.c:486-511 | The deleteable test answers yes if and only if no live snapshot lies in `[create, delete)` |
| SnapshotSafety.DeleteKeepsTarget | thirdPart/nova-chipmunk-disable-chipmunk-bugs/snapshot.c:1078-1122 | A delete leaves the cleaner pointed at a live snapshot if and only if a newer snapshot exists or the deleted one was not its target |
| SnapshotSafety.TargetLost | thirdPart/nova-chipmunk-disable-chipmunk-bugs/snapshot.c:1078-1122 | The failing case is reachable: two snapshots, the older deleted and then the newer before the cleaner has run |
| SnapshotSafety.CleanerMissesNothing | thirdPart/nova-chipmunk-disable-chipmunk-bugs/snapshot.c:202-268 | On lists whose pages keep their own tags, stopping at the first late tag leaves nothing the cleaner could have freed |
| SnapshotSafety.FreshKept | thirdPart/nova-chipmunk-disable-chipmunk-bugs/snapshot.c:410-479 | Every step but a remount keeps page tags below the drop epochs of the entries, the condition of the previous row |
| SnapshotSafety.StepKeeps | thirdPart/nova-chipmunk-disable-chipmunk-bugs/snapshot.c:1021-1122 | Create, allocate, drop, delete, clean and remount each keep the whole invariant: conservation, placement, tags, past lives |
| SnapshotSafety.RunKeeps | thirdPart/nova-chipmunk-disable-chipmunk-bugs/snapshot.c:937-1010 | The invariant holds after any run of steps |
| SnapshotSafety.ReachableInv | thirdPart/nova-chipmunk-disable-chipmunk-bugs/snapshot.c:937-1010 | Every state reachable from an empty table satisfies the invariant |
| SnapshotSteps.CreateDoes | thirdPart/nova-chipmunk-disable-chipmunk-bugs/snapshot.c:937-1010 | A create adds the newest snapshot, of the epoch it closes, with a list for every CPU and nothing deferred; all else stays |
| SnapshotSteps.AllocDoes | thirdPart/nova-chipmunk-disable-chipmunk-bugs/file.c:242-290 | What is allocated is live, not free, and of the current epoch; nothing else changes |
| SnapshotSteps.DropDoes | thirdPart/nova-chipmunk-disable-chipmunk-bugs/log.c:155-168 | A drop frees at once if no snapshot lies in `[create, delete)`; otherwise the oldest snapshot at or after creation defers the item, and no other one and no free block changes |
| SnapshotSteps.DeleteDoes | thirdPart/nova-chipmunk-disable-chipmunk-bugs/snapshot.c:1078-1122 | A delete takes one snapshot out; its successor defers both what it and the deleted one deferred and becomes the target, or else all that is free |
| SnapshotSteps.DeleteAbsent | thirdPart/nova-chipmunk-disable-chipmunk-bugs/snapshot.c:1078-1122 | Deleting a snapshot that is not there changes nothing |
| SnapshotSteps.CleanDoes | thirdPart/nova-chipmunk-disable-chipmunk-bugs/snapshot.c:1364-1387 | A wake-up frees exactly the resources of the target that are in entries dropped by its epoch on pages of an earlier epoch, takes them off the target, leaves the others alone, and drops the target |
| SnapshotSteps.CleanFreesAll | thirdPart/nova-chipmunk-disable-chipmunk-bugs/snapshot.c:193-268 | Until lists are restored that is everything of the target dropped by its epoch |
| SnapshotSteps.CleanIdle | thirdPart/nova-chipmunk-disable-chipmunk-bugs/snapshot.c:1364-1387 | With no target a wake-up changes nothing |
| SnapshotSteps.RemountDoes | thirdPart/nova-chipmunk-disable-chipmunk-bugs/snapshot.c:410-479 | A remount keeps every snapshot with what it defers, and every page carries its own snapshot's epoch |
| SnapshotTable.Table.FindTarget | thirdPart/nova-chipmunk-disable-chipmunk-bugs/snapshot.c:50-83 | The search finds the first snapshot that is not older than the epoch |
| SnapshotTable.Table.CreateSnapshot | thirdPart/nova-chipmunk-disable-chipmunk-bugs/snapshot.c:937-1010 | The table in place becomes the create step of the state machine |
| SnapshotTable.Table.OldEntryDeleteable | thirdPart/nova-chipmunk-disable-chipmunk-bugs/snapshot.c:486-511 | Says whether no snapshot can see the entry, and otherwise which snapshot has to keep it |
| SnapshotTable.Table.AppendEntry | thirdPart/nova-chipmunk-disable-chipmunk-bugs/snapshot.c:410-479 | Appends to the last page of one CPU's list, or to a new page when 127 entries are reached; no other list changes |
| SnapshotTable.Table.DropItem | thirdPart/nova-chipmunk-disable-chipmunk-bugs/log.c:155-168 | Frees at once or defers exactly as the drop step does, freeing if and only if no snapshot lies between |
| SnapshotTable.Table.DeleteListEntries | thirdPart/nova-chipmunk-disable-chipmunk-bugs/snapshot.c:112-176 | The nested loops free every entry of the list that is not marked deleted, each once |
| SnapshotTable.Table.LinkToNext | thirdPart/nova-chipmunk-disable-chipmunk-bugs/snapshot.c:1021-1065 | All lists of a deleted snapshot are linked in front of its successor's and the cleaner is pointed there |
| SnapshotTable.Table.DeleteSnapshot | thirdPart/nova-chipmunk-disable-chipmunk-bugs/snapshot.c:1078-1122 | The table in place becomes the delete step: linked to the successor, or drained when there is none |
| SnapshotTable.Table.BackgroundCleanList | thirdPart/nova-chipmunk-disable-chipmunk-bugs/snapshot.c:202-268 | The cleaner's loop yields the cleaned list and moves exactly what it marks from pending to free |
| SnapshotTable.Table.CleanSnapshot | thirdPart/nova-chipmunk-disable-chipmunk-bugs/snapshot.c:1364-1387 | One wake-up of the cleaner is the clean step on its target |
| PmfsLog.UndoRangeAt | thirdPart/pmfs-chipmunk-disable-chipmunk-bugs/journal.c:101-115 | Undoing in reverse restores, byte by byte, the oldest value logged for it |
| PmfsLog.WalkCorrect | thirdPart/pmfs-chipmunk-disable-chipmunk-bugs/journal.c:192-248 | The backward walk over the ring restores every open region, passes over closed ones, and stops where the entries of a transaction stop |
| PmfsLog.RecoverAgain | thirdPart/pmfs-chipmunk-disable-chipmunk-bugs/journal.c:816-846 | Recovery of a medium torn on logged bytes only yields the same data as recovery of the original |
| PmfsCrash.InitInv | thirdPart/pmfs-chipmunk-disable-chipmunk-bugs/journal.c:453-482 | An empty journal satisfies the invariant |
| PmfsAtomicity.ReserveFits | thirdPart/pmfs-chipmunk-disable-chipmunk-bugs/journal.c:506-613 | A reservation overlaps no live slot, does not wrap inside the transaction, leaves the tail below the end and different from the head, and starts over at slot 0 only with the next generation |
| PmfsCrash.ReserveExact | thirdPart/pmfs-chipmunk-disable-chipmunk-bugs/journal.c:547-580 | A reservation is given if and only if more slots than asked for are free, in one run at the tail or in front of the head; on an empty ring with room at its end always |
| PmfsAtomicity.OldestIsSpec | thirdPart/pmfs-chipmunk-disable-chipmunk-bugs/journal.c:649-726 | For each byte an open transaction may store to, its oldest log entry holds the committed value, however often it logged the byte |
| PmfsAtomicity.StepKeeps | thirdPart/pmfs-chipmunk-disable-chipmunk-bugs/journal.c:506-771 | Reservation, logging, fences, stores, commit, abort and every eviction keep the invariant |
| PmfsRecovery.CrashAtomic | thirdPart/pmfs-chipmunk-disable-chipmunk-bugs/journal.c:816-846 | A crash in any state, then recovery, leaves exactly the effects of the transactions whose commit entry is durable |
| PmfsRecovery.OpenRolledBack | thirdPart/pmfs-chipmunk-disable-chipmunk-bugs/journal.c:101-115 | Bytes logged by an open transaction recover to the oldest value in its log |
| PmfsRecovery.CommitSurvives | thirdPart/pmfs-chipmunk-disable-chipmunk-bugs/journal.c:615-647 | After the fence behind its commit entry a transaction's stores are what recovery yields |
| PmfsRecovery.NothingLost | thirdPart/pmfs-chipmunk-disable-chipmunk-bugs/journal.c:728-746 | With no transaction open recovery yields the data as the processor sees it |
| PmfsRecovery.RecoveryRestarts | thirdPart/pmfs-chipmunk-disable-chipmunk-bugs/journal.c:795-846 | Recovery stopped anywhere, also between the generation and the head store, and started afresh any number of times reaches the same data and leaves no entry of before the crash valid |
| PmfsRecovery.RunKeeps | thirdPart/pmfs-chipmunk-disable-chipmunk-bugs/journal.c:506-771 | Any interleaving of transactions, fences and evictions keeps the invariant |
| PmfsRecovery.EveryCrashAtomic | thirdPart/pmfs-chipmunk-disable-chipmunk-bugs/journal.c:816-846 | In every history of runs, crashes and interrupted recoveries each recovery yields what was committed before that crash |
| PmfsJournal.RingNeighbours | thirdPart/pmfs-chipmunk-disable-chipmunk-bugs/journal.c:49-63 | Next and previous entry are inverse to each other all around the ring |
| PmfsJournal.GenIdNeighbours | thirdPart/pmfs-chipmunk-disable-chipmunk-bugs/journal.c:65-81 | Next and previous generation are inverse to each other and never 0 |
| PmfsJournal.UndoLogged | thirdPart/pmfs-chipmunk-disable-chipmunk-bugs/journal.c:649-726 | The 48-byte entries of one logged range, undone, give back the whole range and nothing else |
| PmfsJournal.Journal.NewTransaction | thirdPart/pmfs-chipmunk-disable-chipmunk-bugs/journal.c:506-613 | Hands out slots of its own exactly where there is room for them, retrying at most once, and otherwise none |
| PmfsJournal.Journal.UndoLogEntry | thirdPart/pmfs-chipmunk-disable-chipmunk-bugs/journal.c:84-99 | Copies one entry's bytes back, nothing else changes |
| PmfsJournal.Journal.UndoTransaction | thirdPart/pmfs-chipmunk-disable-chipmunk-bugs/journal.c:101-115 | The descending loop leaves the undone data |
| PmfsJournal.Journal.AddLogEntry | thirdPart/pmfs-chipmunk-disable-chipmunk-bugs/journal.c:649-726 | Splits a range into entries of at most 48 bytes, each with the old data, the generation and the start mark on the first |
| PmfsJournal.Journal.CommitTransaction | thirdPart/pmfs-chipmunk-disable-chipmunk-bugs/journal.c:728-746 | Writes the commit entry and leaves the data alone |
| PmfsJournal.Journal.AbortTransaction | thirdPart/pmfs-chipmunk-disable-chipmunk-bugs/journal.c:748-771 | Undoes the transaction's stores, then writes the abort entry |
| PmfsJournal.Journal.FindStart | thirdPart/pmfs-chipmunk-disable-chipmunk-bugs/journal.c:192-248 | The backward search stops at the start of the transaction and says whether it is to be undone |
| PmfsJournal.Journal.RecoverTransaction | thirdPart/pmfs-chipmunk-disable-chipmunk-bugs/journal.c:192-248 | Undoes one transaction if it is open and steps over it otherwise |
| PmfsJournal.Journal.ForwardJournal | thirdPart/pmfs-chipmunk-disable-chipmunk-bugs/journal.c:795-814 | Moves to the next generation with head and tail together |
| PmfsJournal.Journal.RecoverUndoJournal | thirdPart/pmfs-chipmunk-disable-chipmunk-bugs/journal.c:816-846 | The loop over the ring leaves the recovered data and an empty journal |
| PmfsSteps.LogIsRun | thirdPart/pmfs-chipmunk-disable-chipmunk-bugs/journal.c:649-726 | Logging a range is a run of the state machine with one step an entry, and leaves the slots that the method leaves |
| PmfsSteps.UndoIsRun | thirdPart/pmfs-chipmunk-disable-chipmunk-bugs/journal.c:101-115 | Undoing a transaction, byte by byte from its newest entry down, is a run of stores to bytes it has durably logged |
| PmfsSteps.AbortIsRun | thirdPart/pmfs-chipmunk-disable-chipmunk-bugs/journal.c:748-771 | Undoing, waiting for the old bytes to be durable, and writing the abort entry is a run of the state machine with the memory and slots that the method leaves |
| PmfsSteps.Begin | thirdPart/pmfs-chipmunk-disable-chipmunk-bugs/journal.c:506-613 | A reservation is given if and only if there is room for it, which is when the state machine may take that step, and journal and transaction then mirror its next state |
| PmfsSteps.LogRange | thirdPart/pmfs-chipmunk-disable-chipmunk-bugs/journal.c:649-726 | From a journal that mirrors a state of the state machine, logging a range runs the machine and mirrors where it arrives |
| PmfsSteps.Commit | thirdPart/pmfs-chipmunk-disable-chipmunk-bugs/journal.c:728-746 | So does committing, once what was stored is durable |
| PmfsSteps.Abort | thirdPart/pmfs-chipmunk-disable-chipmunk-bugs/journal.c:748-771 | So does aborting |
| FileLog.DropRangeAt | thirdPart/nova-chipmunk-disable-chipmunk-bugs/log.c:129-175 | Dropping a range unmaps exactly its pages |
| FileSafety.StepKeeps | thirdPart/nova-chipmunk-disable-chipmunk-bugs/log.c:802-865 | Writes, truncates, other entries, invalidations and collections keep index, entry counts, page counts, sizes and free blocks in order |
| FileSafety.RunKeeps | thirdPart/nova-chipmunk-disable-chipmunk-bugs/log.c:802-865 | So does every run of them |
| FileSafety.IndexAccounting | thirdPart/nova-chipmunk-disable-chipmunk-bugs/log.c:129-175 | In every run `invalid_pages` is the entry's pages minus those still mapped to it, no hole lies between two pages of one entry, and each block is free or in use as often as it exists |
| FileSafety.FreesExactly | thirdPart/nova-chipmunk-disable-chipmunk-bugs/inode.c:281-349 | An operation frees exactly the blocks of the pages it replaces or truncates, each once, so the grouping into runs loses and doubles nothing |
| FileSafety.SkipDead | thirdPart/nova-chipmunk-disable-chipmunk-bugs/rebuild.c:358-369 | Skipping fully invalid entries changes nothing for a page whose last entry is not one |
| FileSafety.RebuildEqualsMemory | thirdPart/nova-chipmunk-disable-chipmunk-bugs/rebuild.c:389-504 | Replaying the log of any run, dead entries skipped and truncating attributes applied, gives the index the run left in memory |
| FileSafety.OverwrittenIsMarked | thirdPart/nova-chipmunk-disable-chipmunk-bugs/log.c:23-76 | A write entry that lost a page to a later one is marked reassigned |
| FileLog.PagesAre | thirdPart/nova-chipmunk-disable-chipmunk-bugs/inode.c:410-431 | The pages of a file are those that begin below its size |
| FileSteps.SetSizeDoes | thirdPart/nova-chipmunk-disable-chipmunk-bugs/inode.c:1238-1276 | Setting the size keeps the block of each page that begins below it, unmaps every other page, and frees each block once for each page lost |
| FileSteps.WriteDoes | thirdPart/nova-chipmunk-disable-chipmunk-bugs/dax.c:146-187 | A written page leads to the block of the last extent that covers it, every other page where it led before; the size is the last one recorded |
| FileSteps.OtherDoes | thirdPart/nova-chipmunk-disable-chipmunk-bugs/log.c:398-456 | An attribute or link entry appended changes nothing else |
| FileSteps.InvalidateDoes | thirdPart/nova-chipmunk-disable-chipmunk-bugs/log.c:538-581 | A superseded entry becomes dead and its page is charged once; nothing else changes |
| FileSteps.CollectDoes | thirdPart/nova-chipmunk-disable-chipmunk-bugs/gc.c:157-183 | A collection leaves every page at its block and adds no entry |
| FileOps.Inode.InvalidateReassign | thirdPart/nova-chipmunk-disable-chipmunk-bugs/log.c:23-76 | Updates one entry's invalid pages and mark, and the page's count of invalid entries if it died |
| FileOps.Inode.InvalidateWriteEntry | thirdPart/nova-chipmunk-disable-chipmunk-bugs/log.c:105-127 | Does so unless nothing is freed and the entry is already marked |
| FileOps.Inode.FreeOldEntry | thirdPart/nova-chipmunk-disable-chipmunk-bugs/log.c:129-175 | Invalidates and frees one run of pages of an entry |
| FileOps.Inode.AssignWriteEntry | thirdPart/nova-chipmunk-disable-chipmunk-bugs/log.c:802-865 | The loop over page offsets with its run counters equals assigning page by page |
| FileOps.Inode.FindNextEntry | thirdPart/nova-chipmunk-disable-chipmunk-bugs/log.c:177-194 | Finds the least mapped page at or above the given one |
| FileOps.Inode.DeleteFileTree | thirdPart/nova-chipmunk-disable-chipmunk-bugs/inode.c:281-349 | The loop that skips holes and groups runs drops exactly the mapped pages from `start` on |
| FileOps.Inode.TruncateFileBlocks | thirdPart/nova-chipmunk-disable-chipmunk-bugs/inode.c:404-440 | Unmaps exactly the pages that begin at or past the new end, run by run |
| FileOps.Inode.SetFileSize | thirdPart/nova-chipmunk-disable-chipmunk-bugs/inode.c:1238-1276 | A size change is the size step of the model; mapped in the end are exactly the pages mapped before that begin below the size |
| FileOps.Inode.ReassignFileTree | thirdPart/nova-chipmunk-disable-chipmunk-bugs/dax.c:146-187 | Applies a committed run of write entries one after the other |
| FileOps.Inode.WriteExtents | thirdPart/nova-chipmunk-disable-chipmunk-bugs/dax.c:146-187 | Appending and applying the entries of one write is the write step of the model |
| FileOps.Inode.AppendEntry | thirdPart/nova-chipmunk-disable-chipmunk-bugs/log.c:398-456 | Appending another kind of entry is the corresponding step |
| FileOps.Inode.InvalidateEntry | thirdPart/nova-chipmunk-disable-chipmunk-bugs/log.c:538-581 | Invalidates an old entry, but never an attribute entry that sets the size |
| FileOps.Inode.Rebuild | thirdPart/nova-chipmunk-disable-chipmunk-bugs/rebuild.c:389-504 | The replay loop started with an empty tree ends in the state the log was written in |
| FileScan.RingIsRebuild | thirdPart/nova-chipmunk-disable-chipmunk-bugs/bbuild.c:873-1016 | The ring rules replayed without a window hold for each page what a rebuild of the tree maps |
| FileScan.NoHoleBetween | thirdPart/nova-chipmunk-disable-chipmunk-bugs/bbuild.c:873-924 | Between two pages left to one entry there is none without |
| FileScan.ScanIsSafe | thirdPart/nova-chipmunk-disable-chipmunk-bugs/bbuild.c:1037-1155 | Every block that the rebuild maps is among the blocks the scan marks, and with nothing kept for snapshots these are all |
| FileScan.LiveBlocksMarked | thirdPart/nova-chipmunk-disable-chipmunk-bugs/bbuild.c:1037-1155 | After any run of writes and truncates every block the file uses is marked |
| FileScanOps.Scanner.CheckOldEntry | thirdPart/nova-chipmunk-disable-chipmunk-bugs/bbuild.c:828-871 | Marks the displaced blocks that are to be kept |
| FileScanOps.Scanner.SetRingArray | thirdPart/nova-chipmunk-disable-chipmunk-bugs/bbuild.c:873-924 | One write entry updates exactly the ring cells of its pages inside the window |
| FileScanOps.Scanner.RingSetattrEntry | thirdPart/nova-chipmunk-disable-chipmunk-bugs/bbuild.c:950-1016 | A shrinking size entry clears exactly the cells past the new size inside the window |
| FileScanOps.Scanner.SetFileBm | thirdPart/nova-chipmunk-disable-chipmunk-bugs/bbuild.c:926-948 | Marks what is left in the ring and empties it |
| FileScanOps.Scanner.Pass | thirdPart/nova-chipmunk-disable-chipmunk-bugs/bbuild.c:1037-1155 | One pass over the log fills the ring of one window and notes the last block of the file |
| FileScanOps.Scanner.TraverseFileInodeLog | thirdPart/nova-chipmunk-disable-chipmunk-bugs/bbuild.c:1037-1155 | All windows together mark exactly the blocks that a rebuild leads to and the replaced ones that a snapshot keeps |
| FileScanOps.MarksExact | thirdPart/nova-chipmunk-disable-chipmunk-bugs/bbuild.c:828-1155 | The marks of the scan are those blocks and no others, whatever the width of the ring |
| FileScanOps.WindowMarks | thirdPart/nova-chipmunk-disable-chipmunk-bugs/bbuild.c:1037-1155 | What one window contributes is what it left and what it kept |
| FileScanOps.MarksEnd | thirdPart/nova-chipmunk-disable-chipmunk-bugs/bbuild.c:1037-1155 | Past the last block seen there is nothing to mark, so stopping there loses nothing |
| LogPages.PageInvalid | thirdPart/nova-chipmunk-disable-chipmunk-bugs/gc.c:104-155 | A page's counters are equal if and only if all of its entries are dead |
| LogPages.DeadCounted | thirdPart/nova-chipmunk-disable-chipmunk-bugs/gc.c:104-155 | Where entries are on the pages they name, the file's count of dead entries of a page is the number of dead entries on that page |
| LogPages.MovesCompacts | thirdPart/nova-chipmunk-disable-chipmunk-bugs/gc.c:157-183 | Moving the live entries and repointing each slot to its copy is a compaction of the file |
| FileCompact.EmbedLast | thirdPart/nova-chipmunk-disable-chipmunk-bugs/gc.c:306-434 | Removing dead entries keeps, for every page of the file whose last entry stays, that entry the last |
| FileCompact.CollectKeeps | thirdPart/nova-chipmunk-disable-chipmunk-bugs/gc.c:306-434 | A compaction keeps the whole file invariant, also for the writes that follow it |
| Gc.SubEmbeds | thirdPart/nova-chipmunk-disable-chipmunk-bugs/gc.c:570-721 | The entries on the pages kept are the old entries in order, with nothing but dead ones missing |
| Gc.PagesParted | thirdPart/nova-chipmunk-disable-chipmunk-bugs/gc.c:570-721 | The pages of a chain are those kept and those freed, each once |
| Gc.PartedExactly | thirdPart/nova-chipmunk-disable-chipmunk-bugs/gc.c:104-155 | Given back are exactly the pages on which every entry is dead |
| Gc.Unlink | thirdPart/nova-chipmunk-disable-chipmunk-bugs/gc.c:570-721 | Setting one next pointer past a page leaves a chain without that page |
| Gc.InodeLog.FastGc | thirdPart/nova-chipmunk-disable-chipmunk-bugs/gc.c:570-721 | Fast collection keeps exactly the pages with a live entry and the tail page, gives the free list each other page exactly once, and the memories between its stores, which differ by one pointer each, all have a chain from the head to the tail through all live pages |
| Gc.InodeLog.MoveHead | thirdPart/nova-chipmunk-disable-chipmunk-bugs/gc.c:660-721 | New pages are linked behind the tail, the head moves to the first page kept, and only then the old first page is freed |
| GcThorough.GcAssignFileEntry | thirdPart/nova-chipmunk-disable-chipmunk-bugs/gc.c:157-183 | Repoints every slot that leads to the copied entry, and no other |
| GcThorough.GetAppendHead | thirdPart/nova-chipmunk-disable-chipmunk-bugs/log.c:1291-1369 | Stays on this page while the entry fits, otherwise goes to the next, and links one more page only where there is none |
| GcThorough.AppendCopy | thirdPart/nova-chipmunk-disable-chipmunk-bugs/log.c:1323-1369 | Appends the copy at the end of the new log and nothing else |
| GcThorough.CopyPage | thirdPart/nova-chipmunk-disable-chipmunk-bugs/gc.c:306-434 | Copies the live entries of one page in order and repoints their slots |
| GcThorough.FreeContiguousLogBlocks | thirdPart/nova-chipmunk-disable-chipmunk-bugs/log.c:1371-1416 | Gives the free list each page of a chain exactly once |
| GcThorough.SwitchOver | thirdPart/nova-chipmunk-disable-chipmunk-bugs/gc.c:306-434 | The numbered steps end in the new log; after each of them the chain from the head reads as the old log without dead entries; freed, each once, are the old pages but the tail page and the new pages left over, none of which is in the new log |
| GcThorough.Steps | thirdPart/nova-chipmunk-disable-chipmunk-bugs/gc.c:385-427 | The stores of the numbered steps and what each leaves in memory |
| GcThorough.ThoroughGc | thirdPart/nova-chipmunk-disable-chipmunk-bugs/gc.c:306-434 | Thorough collection yields a log of the live entries in order with all index slots repointed, readable after each entry copied and each numbered step; freed, each once, are the old pages but the tail page and the new pages not needed, and every page set aside is in the new log or free |
| GcThorough.CopyingReads | thirdPart/nova-chipmunk-disable-chipmunk-bugs/gc.c:306-384 | While entries are copied the chain from the head reads as the old log |
| GcThorough.DescribedCounted | thirdPart/nova-chipmunk-disable-chipmunk-bugs/gc.c:104-155 | For a file in its invariant the counters that collection looks at are exact on every page |
| GcThorough.ThoroughGcCollects | thirdPart/nova-chipmunk-disable-chipmunk-bugs/gc.c:306-434 | Thorough collection is a compaction: it keeps the invariant and the page-to-block map of the replay |
| GcThorough.FastGcCollects | thirdPart/nova-chipmunk-disable-chipmunk-bugs/gc.c:570-721 | So is fast collection, which moves no entry |
| GcThorough.CollectThoroughly | thirdPart/nova-chipmunk-disable-chipmunk-bugs/gc.c:306-434 | From nothing but the file invariant and a log that holds the file, thorough collection ends in a compaction of the file, and counters and log describe it again |
| GcThorough.CollectFast | thirdPart/nova-chipmunk-disable-chipmunk-bugs/gc.c:570-721 | Fast collection likewise; of the pages before the tail exactly those with dead entries only are freed and gone from the log |
| GcThorough.SameBlocks | thirdPart/nova-chipmunk-disable-chipmunk-bugs/gc.c:306-434 | After a compaction each mapped page leads to the block it led to before |
| GcThorough.FastGcReads | thirdPart/nova-chipmunk-disable-chipmunk-bugs/gc.c:570-721 | Whatever a crash during fast collection leaves reads as the old log without some dead entries |
| GcThorough.CrashDuringGc | thirdPart/nova-chipmunk-disable-chipmunk-bugs/gc.c:306-434 | A rebuild after a crash during either collection gives the same page-to-block map |
| LiteJournal.UndoAt | thirdPart/nova-chipmunk-disable-chipmunk-bugs/journal.c:133-143 | Where all entries for a word agree, rolling them back forward restores it, whatever their number and order |
| LiteAtomicity.CrashAtomic | thirdPart/nova-chipmunk-disable-chipmunk-bugs/journal.c:166-187 | A crash in any state, then recovery of every CPU's journal, leaves the committed words |
| LiteAtomicity.AllOrNothing | thirdPart/nova-chipmunk-disable-chipmunk-bugs/journal.c:317-393 | A crash inside a transaction leaves all its words as before it, or all with all its stores |
| LiteAtomicity.StepKeeps | thirdPart/nova-chipmunk-disable-chipmunk-bugs/journal.c:317-438 | Logging, flushing, pointer stores, in-place stores, fences, evictions and crashes keep the invariant, for any number of CPUs |
| LiteAtomicity.RunKeeps | thirdPart/nova-chipmunk-disable-chipmunk-bugs/journal.c:317-438 | So does every run of them |
| LiteAtomicity.EveryCrashAtomic | thirdPart/nova-chipmunk-disable-chipmunk-bugs/journal.c:443-475 | From empty journals on, over any steps and crashes, every transaction in flight is all or nothing |
| LiteAtomicity.NothingElseShows | thirdPart/nova-chipmunk-disable-chipmunk-bugs/journal.c:317-393 | Before the closing head is durable no step of a transaction changes what a crash would leave |
| LiteAtomicity.CommitShows | thirdPart/nova-chipmunk-disable-chipmunk-bugs/journal.c:428-438 | The closing head, once durable, makes all stores of the transaction show at once |
| LiteRecovery.RestartExact | thirdPart/nova-chipmunk-disable-chipmunk-bugs/journal.c:166-187 | A crash inside recovery is harmless if and only if each word is restored on the medium or belongs to a journal still open there |
| LiteRecovery.EvictExact | thirdPart/nova-chipmunk-disable-chipmunk-bugs/journal.c:182-184 | When the stored tail reaches the medium before the fence, a restart still works if and only if the undone words are there already or another open journal has them |
| LiteRecovery.RecoveryRestarts | thirdPart/nova-chipmunk-disable-chipmunk-bugs/journal.c:166-187 | As long as no tail overtakes its words on the way to the medium, recovery may be interrupted at any step, any number of times, and ends in the committed words |
| LiteRecovery.TailOvertakesWords | thirdPart/nova-chipmunk-disable-chipmunk-bugs/journal.c:182-184 | Without that order a second crash can leave one word old and one new: a run of recovery from what a mount finds after a run of the journal and a crash, on a ring of any size above two |
| LiteRecovery.MountedInv | thirdPart/nova-chipmunk-disable-chipmunk-bugs/journal.c:443-475 | What a mount finds after any crash satisfies the premises of recovery |
| LiteJournalOps.NextSlot | thirdPart/nova-chipmunk-disable-chipmunk-bugs/journal.c:79-87 | The successor of an entry is the next of 128 slots, the first after the last |
| LiteJournalOps.FlushCovers | thirdPart/nova-chipmunk-disable-chipmunk-bugs/journal.c:292-314 | The flushed bytes are exactly those of the entries from head to tail, also around the end of the page |
| LiteJournalOps.CreateCovered | thirdPart/nova-chipmunk-disable-chipmunk-bugs/namei.c:80-117 | Create stores only to words that it journals |
| LiteJournalOps.LinkCovered | thirdPart/nova-chipmunk-disable-chipmunk-bugs/namei.c:300-344 | So do link and unlink, with or without the inode dying |
| LiteJournalOps.RenameCovered | thirdPart/nova-chipmunk-disable-chipmunk-bugs/namei.c:837-881 | So does rename, in every combination of its cases, with at most 18 of 128 slots |
| LiteJournalOps.SectionsMayBegin | thirdPart/nova-chipmunk-disable-chipmunk-bugs/journal.c:317-393 | On an idle journal each of the sections is a transaction of the state machine |
| LiteJournalRing.PrefixRollsBack | thirdPart/nova-chipmunk-disable-chipmunk-bugs/journal.c:166-187 | After any number of a section's stores, rolling the journal forward gives back the memory as it was |
| LiteJournalRing.CreateResult | thirdPart/nova-chipmunk-disable-chipmunk-bugs/namei.c:98-106 | After create the inode is valid and the directory's tail is the new one; no other byte changes |
| LiteJournalRing.LinkResult | thirdPart/nova-chipmunk-disable-chipmunk-bugs/namei.c:300-344 | Linking and unlinking leave both log tails as given, and after the last unlink the inode dead as of this epoch; no other byte changes |
| LiteJournalRing.RenameResult | thirdPart/nova-chipmunk-disable-chipmunk-bugs/namei.c:859-884 | After a rename each inode's log ends at the tail given for it, the retired dentries are marked, a moved directory's parent entry names the new parent, a replaced inode without links is dead as of this epoch; no other byte changes |
| LiteJournalRing.Ring.AppendEntryJournal | thirdPart/nova-chipmunk-disable-chipmunk-bugs/journal.c:211-233 | Stores the aligned word of a field with its address in the slot and moves on by one |
| LiteJournalRing.Ring.AppendInodeJournal | thirdPart/nova-chipmunk-disable-chipmunk-bugs/journal.c:246-277 | Journals the tail, the valid word or, for an inode that dies, tail, valid word and delete epoch |
| LiteJournalRing.Ring.AppendDentryJournal | thirdPart/nova-chipmunk-disable-chipmunk-bugs/journal.c:279-290 | Journals the words of the four fields of a dentry, two of which coincide |
| LiteJournalRing.Ring.CreateInodeTransaction | thirdPart/nova-chipmunk-disable-chipmunk-bugs/journal.c:317-344 | The ring holds the old words of inode and directory, and the tail stands behind them |
| LiteJournalRing.Ring.CreateRenameTransaction | thirdPart/nova-chipmunk-disable-chipmunk-bugs/journal.c:347-393 | The ring holds the old words of all inodes and dentries involved, in order |
| LiteJournalRing.Ring.TransactionForNewInode | thirdPart/nova-chipmunk-disable-chipmunk-bugs/namei.c:80-117 | Performs exactly the stores of create under a journal of the old words, and empties it |
| LiteJournalRing.Ring.TransactionForTimeAndLink | thirdPart/nova-chipmunk-disable-chipmunk-bugs/namei.c:300-344 | The same for link and unlink |
| LiteJournalRing.Ring.RenameSection | thirdPart/nova-chipmunk-disable-chipmunk-bugs/namei.c:837-881 | The same for rename |
| LiteJournalRing.Ring.RecoverLiteJournal | thirdPart/nova-chipmunk-disable-chipmunk-bugs/journal.c:166-187 | The loop from head to tail leaves the rolled-back memory and an empty journal |
| Ranges.CanonUnique | thirdPart/nova-chipmunk-disable-chipmunk-bugs/balloc.c:377-501 | The set of free blocks determines a sorted list of ranges that neither overlap nor touch |
| Ranges.TotalIsCount | thirdPart/nova-chipmunk-disable-chipmunk-bugs/balloc.c:476-476 | The sum of the sizes is the number of free blocks |
| FreeSearch.EndsBeside | thirdPart/nova-chipmunk-disable-chipmunk-bugs/balloc.c:221-252 | Whatever turns a search takes, it ends at the node with the key or beside its gap |
| FreeSearch.BesideReached | thirdPart/nova-chipmunk-disable-chipmunk-bugs/balloc.c:221-252 | And some tree makes it end at either side of the gap |
| FreeSearch.RefusedAlways | thirdPart/nova-chipmunk-disable-chipmunk-bugs/balloc.c:320-375 | A range is refused by every tree if and only if its first block is free, or it overlaps a free block and no node lies below it |
| FreeSearch.OverlapUnnoticed | thirdPart/nova-chipmunk-disable-chipmunk-bugs/balloc.c:338-348 | With 0 to 1 and 5 to 8 free, freeing 3 to 6 is accepted by one tree and refused by another |
| FreeSearch.OverlapNoticed | thirdPart/nova-chipmunk-disable-chipmunk-bugs/balloc.c:338-348 | With 5 to 8 alone every tree refuses it |
| FreeList.List.FindRangeNode | thirdPart/nova-chipmunk-disable-chipmunk-bugs/balloc.c:221-252 | Whatever the shape of the tree, the search finds the node with the key or ends beside its gap |
| FreeList.List.FindFreeSlot | thirdPart/nova-chipmunk-disable-chipmunk-bugs/balloc.c:320-375 | Gives the neighbours of a range that is not free; refuses exactly where the search ends at a node the range overlaps, hence every range that `FreeSearch.RefusedAlways` names |
| FreeList.List.Coalesce | thirdPart/nova-chipmunk-disable-chipmunk-bugs/balloc.c:437-474 | Adding a range joins it with the neighbours it touches; the list stays canonical with exact node count and ends |
| FreeList.List.FreeBlocks | thirdPart/nova-chipmunk-disable-chipmunk-bugs/balloc.c:377-501 | For every call: a range of the list's own that is not free is freed exactly, with list sorted, disjoint, never adjacent, counters and ends exact; an error changes nothing; an overlap is refused exactly where the search meets it, and otherwise leaves a list with overlapping nodes, as stated |
| FreeList.List.AllocSuperpage | thirdPart/nova-chipmunk-disable-chipmunk-bugs/balloc.c:590-718 | Takes from the first node with room for 2 MB behind its margin a run that starts at and spans multiples of 512; fails if and only if no node has room |
| FreeList.LeftMarginIs | thirdPart/nova-chipmunk-disable-chipmunk-bugs/balloc.c:620-621 | The margin leads to a 2 MB boundary and is never empty |
| FreeList.SuperpageFreeIs | thirdPart/nova-chipmunk-disable-chipmunk-bugs/balloc.c:615-640 | An aligned 2 MB run is free if and only if some node has room for it behind its margin or starts with it |
| FreeList.SuperpageMissed | thirdPart/nova-chipmunk-disable-chipmunk-bugs/balloc.c:620-621 | A free one is missed if and only if some node starts with it and no node has room behind its margin |
| FreeList.SuperpageMissedHere | thirdPart/nova-chipmunk-disable-chipmunk-bugs/balloc.c:620-621 | With exactly the blocks 512 to 1023 free it is missed |
| FreeList.List.TakeFrom | thirdPart/nova-chipmunk-disable-chipmunk-bugs/balloc.c:776-815 | Takes a whole node or its near end |
| FreeList.List.AllocUnaligned | thirdPart/nova-chipmunk-disable-chipmunk-bugs/balloc.c:768-822 | The fallback takes from the first node that will do, or there is none |
| FreeList.List.AllocBlocks | thirdPart/nova-chipmunk-disable-chipmunk-bugs/balloc.c:721-847 | One contiguous run, formerly free, no longer than asked for; fails exactly when the list is empty, log space is refused, or a huge request fits nowhere |
| FreeListSafety.RunKeeps | thirdPart/nova-chipmunk-disable-chipmunk-bugs/balloc.c:377-501 | Over every sequence of allocations and frees each block is free or in use, never both, and the count is exact |
| FreeListSafety.NeverTwice | thirdPart/nova-chipmunk-disable-chipmunk-bugs/balloc.c:721-847 | What is handed out was in nobody's hands |
| FreeListSafety.AllReturned | thirdPart/nova-chipmunk-disable-chipmunk-bugs/balloc.c:377-501 | Once everything is returned, in whatever order, one range is left |
| FreeListSafety.FreeUndoesAlloc | thirdPart/nova-chipmunk-disable-chipmunk-bugs/balloc.c:377-501 | Freeing what was just allocated restores the list, node by node |
| PmfsBlocks.AlignUpIsLeast | thirdPart/pmfs-chipmunk-disable-chipmunk-bugs/balloc.c:182-182 | The masked sum is the least multiple of the block count above the range |
| RangeEdits.CoveredByOne | thirdPart/pmfs-chipmunk-disable-chipmunk-bugs/balloc.c:78-131 | Blocks in use that follow each other lie in one node, so looking at single nodes finds every valid request |
| PmfsBlocks.Blocks.FreeBlock | thirdPart/pmfs-chipmunk-disable-chipmunk-bugs/balloc.c:52-140 | Frees the range if and only if all of it is in use, with or without a hint, and leaves a valid hint |
| PmfsBlocks.Blocks.FreeIn | thirdPart/pmfs-chipmunk-disable-chipmunk-bugs/balloc.c:82-131 | The four ways a range can lie in its node |
| PmfsBlocks.Blocks.NewBlock | thirdPart/pmfs-chipmunk-disable-chipmunk-bugs/balloc.c:151-280 | Returns the lowest aligned free run above the first range in use and fails only if there is none; list canonical, counters exact |
| PmfsBlocks.Blocks.UseGap | thirdPart/pmfs-chipmunk-disable-chipmunk-bugs/balloc.c:188-247 | The run joins the nodes it touches on either side |
| PmfsBlocks.NoGapBelow | thirdPart/pmfs-chipmunk-disable-chipmunk-bugs/balloc.c:170-186 | With the first block in use no aligned free run is overlooked below the first range |
| PmfsBlocks.HintIsIrrelevant | thirdPart/pmfs-chipmunk-disable-chipmunk-bugs/balloc.c:72-76 | Freeing with a hint gives the same list as freeing without |
| PmfsBlocks.FreeUndoesNew | thirdPart/pmfs-chipmunk-disable-chipmunk-bugs/balloc.c:52-140 | Freeing what was just allocated restores the list |
| Radix.WindowTouches | thirdPart/pmfs-chipmunk-disable-chipmunk-bugs/inode.c:255-258 | The children visited are exactly those that share blocks with the range |
| Radix.TouchedMeans | thirdPart/pmfs-chipmunk-disable-chipmunk-bugs/inode.c:255-280 | A page or block is touched by a range exactly if one of the range's blocks lies under it |
| Radix.ChildWindow | thirdPart/pmfs-chipmunk-disable-chipmunk-bugs/inode.c:276-280 | The bounds passed down are the child's part of the range |
| Radix.WholeGone | thirdPart/pmfs-chipmunk-disable-chipmunk-bugs/inode.c:275-301 | Nothing is left of a subtree that lies in the range as a whole |
| Radix.TruncatedTidy | thirdPart/pmfs-chipmunk-disable-chipmunk-bugs/inode.c:302-313 | Where every page had something below it before, every page left has something below it |
| RadixGrow.AllocTidy | thirdPart/pmfs-chipmunk-disable-chipmunk-bugs/inode.c:519-550 | Growing keeps the tree free of empty pages if and only if there was a root or the range begins in the first 512 blocks |
| RadixShrink.TruncatedMeans | thirdPart/pmfs-chipmunk-disable-chipmunk-bugs/inode.c:437-516 | What truncation leaves: the data before the range; a root if and only if some position lies outside the range |
| RadixShrink.FirstSlot | thirdPart/pmfs-chipmunk-disable-chipmunk-bugs/inode.c:371-380 | Following the first slot never meets null while data is left |
| RadixShrink.BlocksAre | thirdPart/pmfs-chipmunk-disable-chipmunk-bugs/inode.c:437-516 | The blocks that so many bytes take are those that begin below the end |
| RadixShrink.LastOfIs | thirdPart/pmfs-chipmunk-disable-chipmunk-bugs/inode.c:437-516 | The last block to cut is the last of the tree below the old end, or of the tree |
| RadixShrink.SparseFileStops | thirdPart/pmfs-chipmunk-disable-chipmunk-bugs/inode.c:356-360 | Where a first write from some block on has left its tree, a truncation stops the code if and only if it keeps 512 blocks or more, but none of those written |
| RadixTree.Inode.FindDataBlock | thirdPart/pmfs-chipmunk-disable-chipmunk-bugs/pmfs.h:480-502 | The descent yields the block mapped at that number, or 0 |
| RadixTree.Inode.IsEmptyMetaBlock | thirdPart/pmfs-chipmunk-disable-chipmunk-bugs/inode.c:219-230 | True if and only if no slot outside the range is used |
| RadixTree.Inode.TruncateChild | thirdPart/pmfs-chipmunk-disable-chipmunk-bugs/inode.c:259-301 | Cuts one child: exactly the blocks in the range and the pages emptied are freed, once |
| RadixTree.Inode.RecursiveTruncate | thirdPart/pmfs-chipmunk-disable-chipmunk-bugs/inode.c:241-315 | Frees exactly the range below a page and the pages emptied; the page is reported empty if and only if nothing is left below it; no other page changes |
| RadixTree.Inode.EnsureChild | thirdPart/pmfs-chipmunk-disable-chipmunk-bugs/inode.c:580-625 | Fills one empty slot with a fresh block, zeroed for a page, or fails and changes nothing |
| RadixTree.Inode.RecursiveAlloc | thirdPart/pmfs-chipmunk-disable-chipmunk-bugs/inode.c:561-656 | Adds exactly the missing positions of the range below a page; on failure only some of these |
| RadixTree.Inode.AddLevel | thirdPart/pmfs-chipmunk-disable-chipmunk-bugs/inode.c:527-542 | One page above the root whose first slot is the old root; no position moves |
| RadixTree.Inode.IncreaseHeight | thirdPart/pmfs-chipmunk-disable-chipmunk-bugs/inode.c:519-550 | Growing keeps every lookup; it stops early only if blocks run out |
| RadixTree.Inode.HeightFor | thirdPart/pmfs-chipmunk-disable-chipmunk-bugs/inode.c:680-697 | The least sufficient height |
| RadixTree.Inode.AllocBlocks | thirdPart/pmfs-chipmunk-disable-chipmunk-bugs/inode.c:658-753 | Exactly the range becomes mapped, every other lookup stays, and besides the pages above the range only pages from the old root to the new are added; it fails only beyond the largest size, changing nothing, or once no block is free; the tree grows no higher than asked for |
| RadixTree.Inode.DropLevels | thirdPart/pmfs-chipmunk-disable-chipmunk-bugs/inode.c:371-380 | Shrinking loses no block and, in a tree without empty pages, no page |
| RadixTree.Inode.DecreaseHeight | thirdPart/pmfs-chipmunk-disable-chipmunk-bugs/inode.c:348-391 | Fits the height to the size; stops if and only if pages but no data are left |
| RadixTree.Inode.CutAll | thirdPart/pmfs-chipmunk-disable-chipmunk-bugs/inode.c:473-489 | The tree becomes the truncated one, root included, with exact block count |
| RadixTree.Inode.TruncateBlocks | thirdPart/pmfs-chipmunk-disable-chipmunk-bugs/inode.c:437-516 | Unmaps and frees exactly the blocks past the new size; the code stops if and only if all data goes and some page lies outside the range; the tree is left no higher than the new size asks for |
| RadixTree.Inode.WriteThenTruncate | thirdPart/pmfs-chipmunk-disable-chipmunk-bugs/inode.c:356-360 | Run from an empty inode: allocate blocks, then truncate; the code stops if and only if the new size is 512 blocks or more and not past the first block allocated |
| Parity.ColumnChange | thirdPart/nova-chipmunk-disable-chipmunk-bugs/parity.c:20-54 | Replacing one stripe changes the parity by the old and the new bytes |
| Parity.RebuiltAt | thirdPart/nova-chipmunk-disable-chipmunk-bugs/parity.c:303-321 | Parity and seven intact bytes give the eighth |
| Parity.CandidateIsOriginal | thirdPart/nova-chipmunk-disable-chipmunk-bugs/parity.c:322-336 | If the damage begins at byte i of the stripe and is no longer than a stripe, candidate i is the original stripe |
| Parity.AcceptedIsOriginal | thirdPart/nova-chipmunk-disable-chipmunk-bugs/parity.c:332-336 | With a collision-free checksum nothing but the original is accepted |
| Parity.ScribbleAccepted | thirdPart/nova-chipmunk-disable-chipmunk-bugs/parity.c:322-349 | Such a scribble is always repaired |
| Parity.BothStripes | thirdPart/nova-chipmunk-disable-chipmunk-bugs/parity.c:268-372 | Two recoveries undo a scribble that straddles two stripes |
| ParityOps.CalculateBlockParity | thirdPart/nova-chipmunk-disable-chipmunk-bugs/parity.c:20-54 | Both word widths compute the exclusive or of the stripes |
| ParityOps.UnrolledParity | thirdPart/nova-chipmunk-disable-chipmunk-bugs/parity.c:190-217 | The unrolled loop computes the same parity, and moves the block pointer by one stripe |
| ParityOps.TouchedAre | thirdPart/nova-chipmunk-disable-chipmunk-bugs/parity.c:171-172 | The stripes counted for a write are those that hold a byte written |
| ParityOps.UpdateBlockCsumParity | thirdPart/nova-chipmunk-disable-chipmunk-bugs/parity.c:147-256 | What is stored as parity, and as checksum of each stripe that holds a byte written; the other checksums stay |
| ParityOps.CsumsRight | thirdPart/nova-chipmunk-disable-chipmunk-bugs/parity.c:248-250 | The checksums stored are those of the stripes, for every checksum and every content, if and only if some stripe holds no byte written or the processor has the instruction |
| ParityOps.CsumsWrong | thirdPart/nova-chipmunk-disable-chipmunk-bugs/parity.c:216-250 | Otherwise a block and a checksum for which stripe 0 gets that of stripe 1 |
| ParityOps.RestoreData | thirdPart/nova-chipmunk-disable-chipmunk-bugs/parity.c:268-372 | Writes back the first candidate that the checksums accept and nothing else, or changes nothing if none is accepted |
| ParityOps.RecoverScribble | thirdPart/nova-chipmunk-disable-chipmunk-bugs/parity.c:268-372 | For a scribble of at most a stripe the block gets its original stripe back |
| ParitySlots.FreeListBounds.DataCsumInit | thirdPart/nova-chipmunk-disable-chipmunk-bugs/balloc.c:62-87 | Cuts the checksum areas off both ends of a share |
| ParitySlots.FreeListBounds.DataParityInit | thirdPart/nova-chipmunk-disable-chipmunk-bugs/balloc.c:90-119 | Cuts the parity area off the front |
| ParitySlots.FreeListBounds.InitFreeList | thirdPart/nova-chipmunk-disable-chipmunk-bugs/balloc.c:123-141 | The bounds of every list as a function of device and CPU count |
| ParitySlots.ShareTiled | thirdPart/nova-chipmunk-disable-chipmunk-bugs/balloc.c:62-141 | Checksum area, parity area, allocatable blocks and replica area tile each share but for the reserved ends, and are no larger than their part of the whole |
| ParitySlots.DeviceCounts | thirdPart/nova-chipmunk-disable-chipmunk-bugs/balloc.c:62-141 | Shares are equal and leave less than one block a CPU over; four bytes of checksum for each stripe and one parity block in nine, rounded as in the code |
| ParitySlots.NineToOne | thirdPart/nova-chipmunk-disable-chipmunk-bugs/balloc.c:99-111 | The two ceilings leave a parity block for every nine blocks of each share |
| ParitySlots.ParitySlot | thirdPart/nova-chipmunk-disable-chipmunk-bugs/nova.h:904-942 | Each allocatable block passes the range test and its slot lies in the parity area of its list, in front of the allocatable blocks |
| ParitySlots.SlotsDistinct | thirdPart/nova-chipmunk-disable-chipmunk-bugs/nova.h:904-942 | Slots of different blocks do not overlap, across all lists |
| ParitySlots.ParityNeverAllocated | thirdPart/nova-chipmunk-disable-chipmunk-bugs/balloc.c:62-141 | No allocatable block lies in any list's parity or checksum area |
| ParitySlots.NeverFirst | thirdPart/nova-chipmunk-disable-chipmunk-bugs/balloc.c:62-141 | An allocatable block lies in the share of its list and is not the first of it, so that blocks that follow each other are of one share |
| ParitySlots.CsumSlots | thirdPart/nova-chipmunk-disable-chipmunk-bugs/nova.h:859-902 | The stripes of a block have room for their checksums if and only if the checksum blocks of the list reach that far |
| ParitySlots.CsumSlotsSuffice | thirdPart/nova-chipmunk-disable-chipmunk-bugs/balloc.c:62-87 | From 64 MB on they always do |
| ParitySlots.CsumSlotsDistinct | thirdPart/nova-chipmunk-disable-chipmunk-bugs/nova.h:859-902 | Checksums of different stripes, and a checksum and its replica, never overlap, across all lists |
| ParitySlots.CsumSlotMissing | thirdPart/nova-chipmunk-disable-chipmunk-bugs/balloc.c:72-73 | On a device of 255 blocks an allocatable block has no checksum slot |
| MountLists.Insert | thirdPart/nova-chipmunk-disable-chipmunk-bugs/bbuild.c:552-586 | Inserts a range at its place in the order with exact counts, if and only if its first block is not there already |
| MountLists.BuildBlocknodeMap | thirdPart/nova-chipmunk-disable-chipmunk-bugs/bbuild.c:588-638 | The sweep over the bitmap gives each list exactly the clear bits inside its bounds, as a canonical list |
| MountLists.MaximalRuns | thirdPart/nova-chipmunk-disable-chipmunk-bugs/bbuild.c:588-638 | Each range of a rebuilt list is a maximal run of clear bits |
| MountLists.AppendRangeNodeEntry | thirdPart/nova-chipmunk-disable-chipmunk-bugs/bbuild.c:374-411 | Writes one range behind the others, on the next page when this one is full |
| MountLists.SaveRangeNodes | thirdPart/nova-chipmunk-disable-chipmunk-bugs/bbuild.c:413-434 | Appends one list in increasing order |
| MountLists.SaveLists | thirdPart/nova-chipmunk-disable-chipmunk-bugs/bbuild.c:528-550 | The log holds all lists one after the other, on pages counted for at least as many nodes |
| MountLists.LoadBlocknodeMappings | thirdPart/nova-chipmunk-disable-chipmunk-bugs/bbuild.c:196-266 | Loading gives every CPU the list that was saved, with exact counts |
| MountCycle.TakeHead | thirdPart/nova-chipmunk-disable-chipmunk-bugs/balloc.c:776-815 | A log page allocation takes the first node, or as much of its front as is asked for, and never adds a node |
| MountCycle.AllocateLogPages | thirdPart/nova-chipmunk-disable-chipmunk-bugs/log.c:1108-1161 | However many runs from whichever lists: each list is its old set without its pages, the pages are distinct, and the number of nodes has not grown; fewer pages than asked for only where an allocation fails |
| MountCycle.Return | thirdPart/nova-chipmunk-disable-chipmunk-bugs/balloc.c:377-501 | Returning blocks joins the nodes they touch |
| MountCycle.FreeInodeLog | thirdPart/nova-chipmunk-disable-chipmunk-bugs/log.c:1371-1416 | Freeing the log in runs of neighbouring pages gives every list back its own pages and nothing else |
| MountCycle.Restored | thirdPart/nova-chipmunk-disable-chipmunk-bugs/bbuild.c:196-266 | Lists that lost the log pages and got them back are the lists of before, node by node |
| MountCycle.UnmountAndMount | thirdPart/nova-chipmunk-disable-chipmunk-bugs/bbuild.c:499-550 | Count, take that many pages, save, load, free the pages: if the pages could be had, the lists are exactly those of before, the pages counted always suffice, and nothing is saved only where there is nothing or an allocation fails |
| MountCycle.BothPathsAgree | thirdPart/nova-chipmunk-disable-chipmunk-bugs/bbuild.c:588-638 | The list built from the bitmap of the blocks in use is the list that saving and loading restores |

## Left out

- FreeList.List.AllocSuperpage: the 32-bit truncation of the right margin, which matters from 16 TB in one node on, is not modelled.
- LiteRecovery.RecoveryRestarts: assumes that the tail does not become durable before the undone words; the other case is in the two rows before and after it.
- FileSafety.RebuildEqualsMemory: takes the order of the log for the order of the transaction numbers, and leaves out attribute entries rewritten in place within one epoch.
- RadixTree.Inode.TruncateBlocks: the branch that recounts the blocks at mount time is left out; the count is shown to be exact without it.
- PmfsRecovery.EveryCrashAtomic: generation numbers stay below their maximum.
- Memory allocation failure, locks, wait queues, timing, statistics counters and messages in all components.
- Media errors and the replica paths of inodes and log entries, which are off in the default build.
- Snapshots: the page counters of lists, saving the lists at unmount, and two cleaners at work at the same time; a step of the cleaner is atomic on a snapshot that is still alive.
- PMFS journal: redo mode, the cleaner, and a reservation that would have to wait for it; the state machine numbers transactions by the reservations given, while the code also uses up a number on one refused, which recovery does not read.
- File log: frees deferred by snapshots are covered in the snapshot model and by a parameter of the scan; fallocate beyond the end of file, memory-mapped writes and the bitmap marks of the log pages themselves are not modelled.
- Garbage collection: directory, attribute, link-change, memory-map and snapshot entries are entries without index slots here, so their own repointing is not modelled; nor are the estimate that chooses between the two collections and the padding at the end of a page.
- LiteAtomicity.EveryCrashAtomic: a transaction begins only when the words it journals are durable as they stand.  This is the guard of the machine's first step and a premise of the journaled sections; that every other store to those words has been flushed and fenced by then is up to the code around them and not modelled.
- Lite journal: the transaction for in-place log entry updates, the checksum of entries, and the directory and link code around the journaled sections.
- NOVA allocator: the choice of another CPU's list when one runs short, 1 GB blocks, and node checksums, which always match here.
- PMFS block tree: journaling of its slots, and block numbers instead of byte addresses; an allocation fails only where no block is free, leaving blocks behind without the flag that says so, and truncation is stated under the condition that no block lies past the range.
- Parity: checksums are an unspecified function of the stripe; the function is collision-free only where a statement says so.
- Mounting: the inode lists, and blocks of 2 MB and 1 GB in the bitmap; the number of blocks is a multiple of eight, so that the bitmap covers every share.
- Mount options, ioctl, proc and sysfs, VFS glue, DAX faults and write protection.
