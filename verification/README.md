# A model of the storage engine

This project models the storage engine of a SQLite-format database library: the pager
(dirty pages, page cache, rollback journal, write-ahead log, checkpoints, freelist) and
the b-tree layer on top of it (slotted leaf pages, dropping a tree, index and table
cursors). Each module states what the code does in Dafny and proves what it is for.

The layers, bottom up:

- `Bytes`, `Sequences`, `Vfs`, `PageFile`: big-endian fields, byte files, and the main file as a
  sequence of pages, with the proof that page reads, writes and truncation are the byte
  operations at `(n - 1) * page_size`.
- `Wal`, `WalFormat`, `WalSlots`, `WalWriter`, `WalSessions`: the log format, what its
  checksum and its valid frames are, its writer, and commits across sessions. `Checkpoint`, `Snapshots`: one PASSIVE pass, and readers, one writer and
  checkpoints interleaved step by step.
- `Journal`, `CrashRecovery`, `CommitSteps`: the rollback journal, recovery, and a commit
  as a machine of single steps: what a crash after any of them can leave, at each level
  of synchronization.
- `PageCache`: the cache as an exact LRU map. `Freelist`, `Allocator`, `FreelistRuns`:
  trunk pages, allocation, and the integrity check over every run.
- `PagerState`, `Connection`, `ConnectionRuns`: a whole connection, and the proof that
  every run of operations behaves as on two plain page maps. `CrashRuns`: the same across
  a crash and reopening. `StaleCache`: where it fails.
- `Cells`, `PageLayout`, `SpliceInsert`, `PageRebuild`, `Freeblocks`, `SpliceDelete`,
  `FreeblockLimit`: the slotted page, byte by byte.
- `TreePages`, `Records`, `RecordValues`, `FreeTree`, `OverflowReread`, `FreeTreeWalk`,
  `FreeTreeExamples`: dropping a b-tree.
- `IndexKeys`, `IndexTree`, `IndexCursor`, `IndexSearch`, `TableTree`, `TableCursor`,
  `TablePages`, `TableBytes`, `IndexPages`, `IndexBytes`: key order, cursors and lookups; the
  last four read tables and indexes off their pages.

Where the code does not do what its documentation promises, the code is modelled as it
is, a lemma shows the failing case, and another states exactly when the promise holds:

- A reader that pins mark 0 does not bound a checkpoint, so its view can change
  (`Snapshots.ZeroMarkReaderMoves`). It is isolated for good exactly if its overlay leaves
  no page to the main file (`Snapshots.IsolatedIff`), and over a run exactly if every page
  copied meanwhile was in its overlay or already the same (`Snapshots.ViewKeptIff`). The
  comment at src/pager/checkpoint.rs:122-127 takes mark 0 to need no protection.
- A rollback-journal commit below full synchronization can be torn in half
  (`CommitSteps.TornInHalf`), and with syncing off even a commit of one page can leave a
  file cut to its old count (`CommitSteps.CutShort`). `CommitSteps.AtomicIff` says exactly
  when a commit is atomic.
- In a file with more pages than its header counts, extending hands out a page that may be
  cached, and later reads of it return the old bytes (`StaleCache.StaleRead`,
  `StaleCache.StaleIff`). In a file with fewer pages than counted, extending leaves a gap
  that the flush fills with zero pages (`PageFile.WriteAllContentsIff`). A connection stays
  sound exactly if neither is the case (`Connection.Pager.AllocatePage`).
- With nonce 0 an all-zero journal record passes its checksum and recovery clears page 1
  (`CrashRecovery.ZeroNonceWipesPage1`, `CrashRecovery.HarmlessIff`).
- Resuming a log after a torn commit makes the leftover frames part of the next commit
  (`WalSessions.LeftoverIsPublished`, `WalSessions.ResumeAbsorbsLeftovers`).
- Below full synchronization a WAL commit never reaches the log file
  (`PagerState.UnsyncedCommit`).
- With all page numbers used up, the allocator hands out the last page again
  (`FreelistRuns.LastPageUsed`, `FreelistRuns.AllocSound`).
- Dropping an index reads and decodes an interior page's keys after freeing their overflow
  chains. With an empty freelist a chain of two pages is cut and a chain of one page reads
  as freelist numbers (`FreeTreeExamples.CutIndexFails`,
  `FreeTreeExamples.GarbledIndexFails`). Which keys can still be read is a condition on
  the freelist (`FreeTreeWalk.KeyReadIff`); the walk succeeds exactly if all can and
  decode (`FreeTreeWalk.FreeBtreePages`), which room on the first trunk guarantees
  (`FreeTreeWalk.RoomyTreeIsFreed`).
- Removing a cell from a page with more than 10,000 freeblocks reports an error after the
  cell is gone (`FreeblockLimit.CrowdedIsWellFormed`, `SpliceDelete.SpliceDeleteCell`).
- Scans, seeks, descents, counts and tree walks stop at 1,000,000 pages; their contracts
  give the limit as an if-and-only-if.

## Model

| member | source | states |
|---|---|---|
| `Wal.HeaderRoundTrip` | src/pager/wal.rs:159-251 | A serialized valid header parses back to itself whatever follows it. |
| `Wal.NewHeaderIsValid` | src/pager/wal.rs:205-229 | A freshly built header carries its own correct checksum. |
| `WalFormat.HeaderLayout` | src/pager/wal.rs:235-251 | Where each field of a header stands, its magic byte by byte. |
| `WalFormat.ParsesIff` | src/pager/wal.rs:159-203 | A file parses as a header if and only if it starts with that header's bytes and they carry a legal page size and their own checksum. |
| `Wal.Checksum` | src/pager/wal.rs:259-281 | The checksum loop equals the two-word fold over the data, in either byte order, with 32-bit wrap-around. |
| `WalFormat.ChecksumIs` | src/pager/wal.rs:259-270 | In closed form, each of the two words is the sum of all data words up to it and the initial pair, weighted by Fibonacci numbers, modulo 2^32; a partial last chunk is ignored. |
| `WalFormat.WordIs` | src/pager/wal.rs:275-282 | A data word is four bytes, big-endian or in the host's order. |
| `Wal.CommittedPages` | src/pager/wal.rs:306-385 | For every byte input, the live map with its reverse-unwound undo log equals the simple form that snapshots the whole map at each commit frame; the size is that of the last commit. |
| `Wal.UndoOfInsert` | src/pager/wal.rs:340-380 | Logging the old entry before an insert makes unwinding restore the earlier map. |
| `Wal.LastValidFrameState` | src/pager/wal.rs:404-444 | The resume point is where the scan of valid frames stops, with its running checksum. |
| `WalSlots.ReadsLongestRun` | src/pager/wal.rs:322-444 | For every byte string, the frames both methods answer from are the longest run of whole slots that carry both salts and a stored pair equal to the checksum continued from the header over the slots so far; the resume point is behind it. |
| `WalSlots.DamagedSlot` | src/pager/wal.rs:350-356 | Changing the stored pair of a valid slot makes the file read as its prefix before that slot. |
| `Wal.LastFrameWins` | src/pager/wal.rs:360-361 | A page's content is that of the last frame for it. |
| `Wal.CommittedIsOverlay` | src/pager/wal.rs:306-385 | What a reader loads is the overlay of the frames up to the last commit frame. |
| `WalWriter.FrameReadsBack` | src/pager/wal.rs:507-546 | An encoded frame is recognised wherever it lies in a file, and continues the checksum. |
| `WalWriter.ScanReadsBack` | src/pager/wal.rs:404-444 | Scanning encoded frames yields them, then whatever the rest of the file holds. |
| `WalWriter.CleanLogScans` | src/pager/wal.rs:404-444 | A log the writer left, stale bytes of an older generation behind it included, scans to exactly its frames and the writer's own end state. |
| `WalWriter.ExtendCleanLog` | src/pager/wal.rs:552-559 | Writing further encoded frames at the end of a clean log gives a clean log of all of them. |
| `WalWriter.Writer.Create` | src/pager/wal.rs:491-503 | Creation writes the header only, without truncating; the log is clean if older bytes behind it do not carry the new salts. |
| `WalWriter.Writer.AppendFrame` | src/pager/wal.rs:507-546 | A frame is queued with the checksum continued over head and page; the file is not touched. |
| `WalWriter.Writer.Sync` | src/pager/wal.rs:552-559 | Every queued frame reaches the file in one write at its end. |
| `WalWriter.Writer.OpenExisting` | src/pager/wal.rs:581-641 | On any file: by an applicable hint, else by a rescan, with the header's own error or a page size mismatch otherwise; on a log a writer left both ways give the same state. |
| `WalWriter.StaleHint` | src/pager/wal.rs:581-620 | A hint is refused on a log of another generation and on a file of another length. |
| `WalWriter.Writer.FrameCount` | src/pager/wal.rs:669-674 | The frame count is the number of frames written and queued. |
| `WalSessions.TransactionsReadBack` | src/pager/wal.rs:306-385 | A log of whole transactions reads back as those transactions applied in order, with the last one's size. |
| `WalSessions.Commit` | src/pager.rs:691-745 | One commit appends exactly its pages' frames, the last carrying the page count, and leaves a truthful resume hint; below full synchronization the file is unchanged. |
| `WalSessions.RunSessions` | src/pager/wal.rs:581-641 | Any number of sessions, each reusing or dropping the hint, read back as all their transactions in order. |
| `WalSessions.ResumeAbsorbsLeftovers` | src/pager/wal.rs:395-444 | Exactly when resuming after uncommitted frames still commits the new transaction alone. |
| `WalSessions.LeftoverIsPublished` | src/pager/wal.rs:395-444 | A leftover frame for page 2 becomes visible through a commit of page 3. |
| `WalSessions.TornSync` | src/pager/wal.rs:507-559 | A commit's one write cut short at any byte leaves a log that reads back as the commit before. |
| `Checkpoint.PageCountOfPages` | src/pager/checkpoint.rs:51-56 | A whole number of pages is counted as such, and as 0 past the 32-bit limit. |
| `Checkpoint.PageCountIs` | src/pager/checkpoint.rs:51-56 | In general it is the least number of pages that holds the file, a partly filled last page counting. |
| `Checkpoint.SafeFrame` | src/pager/checkpoint.rs:108-142 | The pass goes as far as the log or the smallest nonzero reader mark. |
| `Checkpoint.Backfill` | src/pager/checkpoint.rs:144-180 | The pages in range, and only those, are written in ascending order: every logged page up to the committed size or within the file is there afterwards, no other changes, and the file grows no further than that size. |
| `Checkpoint.CheckpointPassive` | src/pager/checkpoint.rs:61-194 | The published backfill never goes down; the main file gains exactly the overlay of the copied prefix; errors and empty logs change nothing. |
| `Checkpoint.AllInRange` | src/pager/checkpoint.rs:144-180 | On a log whose commits stay within their sizes no page is skipped and no gap zero-filled. |
| `Snapshots.InvRun` | src/pager/checkpoint.rs:61-194 | One invariant holds in every state of every interleaving of commits, reader pins and loads, and a checkpoint's separate reads of log and marks, page writes and publication. |
| `Snapshots.SnapshotIsolation` | src/pager/checkpoint.rs:108-142 | Over every run, a reader with a nonzero mark sees a constant database while it is open. |
| `Snapshots.NewReaderSeesLatest` | src/pager.rs:434-439 | A reader that loads sees every transaction committed so far, whatever has been copied. |
| `Snapshots.BackfillIsSound` | src/pager/checkpoint.rs:181-194 | Backfill never falls, main file and log together are always the committed database, and once backfill covers the log the main file alone is. |
| `Snapshots.ViewKeptIff` | src/pager/checkpoint.rs:144-180 | Over every run and for every mark, a reader sees the same pages throughout if and only if every page copied meanwhile was in its overlay or already the same. |
| `Snapshots.IsolatedIff` | src/pager/checkpoint.rs:108-142 | In every reachable state nothing that may still happen, with commits of whole pages only, changes an open reader's view if and only if its mark is nonzero or its overlay leaves no page to the main file. |
| `Snapshots.ZeroMarkReaderMoves` | src/vfs/shm.rs:442-471 | A run in which a reader with mark 0 sees two different databases. |
| `Journal.HeaderRoundTrip` | src/pager/journal.rs:106-141 | A serialized journal header parses back to itself. |
| `Journal.PageChecksum` | src/pager/journal.rs:155-169 | The sampling loop equals the sum of every 200th byte from the end, with wrap-around. |
| `Journal.CksumByte` | src/pager/journal.rs:155-169 | The checksum of a zero page is the nonce, and changing one byte moves it, modulo 2^32, by exactly the change if the byte is a positive multiple of 200 from the end and not the first, and else not at all. |
| `Journal.WriteHeader` | src/pager/journal.rs:191-222 | The header fills its sector; a sector too small for it is refused and nothing written. |
| `Journal.WriteRecord` | src/pager/journal.rs:230-244 | Record by record the file becomes the journal of all of them. |
| `Journal.RecordLayout` | src/pager/journal.rs:230-244 | A record is page number, page and checksum; record i stands behind the sector and i records. |
| `Journal.Recover` | src/pager/journal.rs:276-320 | Recovery writes back exactly the valid records up to the first bad one. |
| `Journal.DamageEndsReplay` | src/pager/journal.rs:303-305 | With one sampled byte of a record changed, the records before it are replayed and nothing from it on. |
| `CrashRecovery.Open` | src/pager.rs:1133-1151 | Opening replays a hot journal, truncates to the old page count and removes it; a journal without the magic is ignored. |
| `CrashRecovery.RecoveryRestarts` | src/pager.rs:1133-1151 | Crashing anywhere inside recovery and opening again gives the same database. |
| `CrashRecovery.RepeatedCrashes` | src/pager.rs:1133-1151 | The same over any number of crashes. |
| `CrashRecovery.PartialReplay` | src/pager/journal.rs:276-320 | Any subset of the restoring writes, truncated or not, is such an intermediate state. |
| `CrashRecovery.RollsBack` | src/pager.rs:583-637 | With the journal complete, any torn state of the journaled pages opens as the old database. |
| `CrashRecovery.UnsyncedIsHarmless` | src/pager/journal.rs:191-253 | Any surviving subset of unsynced journal writes opens as the old database unless a hole can pass for a record. |
| `CrashRecovery.SubsetTears` | src/pager.rs:622-626 | Whichever of the commit's page writes survive, the file differs from the old one in journaled pages and past the old end only. |
| `CrashRecovery.SurvivingIsPages` | src/pager.rs:622-626 | As bytes, such a file is the old one with exactly the surviving pages written. |
| `CommitSteps.FullCrash` | src/pager.rs:583-637 | At full synchronization every disk a crash can leave, at any step of a commit, is an old file with part of a journal, any subset of the page writes with the whole journal, or the new file. |
| `CommitSteps.CommitIsAtomic` | src/pager.rs:583-637 | At full synchronization every such disk, given a nonzero nonce, opens as the old database or the new one. |
| `CommitSteps.AtomicIff` | src/pager.rs:583-637 | For every file, level and nonzero nonce, a commit is atomic under every crash if and only if it has a journal and the level is full, or it changes at most one page and, with syncing off, that page is not counted or the file is as long as its count. |
| `CommitSteps.MixtureOpens` | src/pager.rs:627-637 | Below full synchronization, or without a journal, a crash in a commit of two changed pages can leave a disk that opens as neither database. |
| `CommitSteps.TornInHalf` | src/pager.rs:583-637 | Two changed pages of a two-page file, torn with syncing at NORMAL and off. |
| `CommitSteps.OneChangeIsAtomic` | src/pager.rs:583-637 | A commit that changes one page is atomic at every level but off, and there too if the page is not counted or the file as long as its count. |
| `CommitSteps.CutShort` | src/pager.rs:612-637 | Otherwise a journal that lost its records makes recovery cut the new file to the old count. |
| `CommitSteps.BeyondTheCount` | src/pager.rs:583-637 | A commit of uncounted pages only, which writes no journal, leaves the counted pages alone in every crash. |
| `CrashRecovery.ZeroNonceWipesPage1` | src/pager/journal.rs:155-169 | With nonce 0 a lost record makes recovery clear page 1. |
| `CrashRecovery.HarmlessIff` | src/pager/journal.rs:276-320 | For every file, an unsynced journal is harmless in every crash if and only if the nonce is nonzero, there are fewer than two records, or page 1 was zero anyway. |
| `CrashRecovery.FlushIsValid` | src/pager.rs:583-637 | Flushing dirty pages in ascending order is such a commit: every page it overwrites has its pre-image journaled. |
| `PageFile.PageReadIsByteRead` | src/vfs/page_source.rs:98-124 | Reading at `(n - 1) * page_size` reads page n. |
| `PageFile.PageWriteIsByteWrite` | src/vfs/page_source.rs:214-230 | Writing there writes page n and zero-fills any gap. |
| `PageFile.PageTruncateIsByteTruncate` | src/vfs/memory.rs:159-163 | Setting the file length sets the page count. |
| `PageFile.WriteAllContents` | src/pager.rs:622-626 | Ascending writes without gaps give the old contents overlaid with the written pages. |
| `PageFile.WriteAllContentsIff` | src/pager.rs:622-626 | That is so if and only if the writes leave no gap past the end of the file. |
| `PageCache.Cache.Get` | src/pager.rs:152-171 | A hit returns the stored bytes and makes the page the most recent one; a miss changes nothing observable. |
| `PageCache.Cache.Compact` | src/pager.rs:173-179 | Rebuilding the heap changes nothing observable. |
| `PageCache.Cache.Insert` | src/pager.rs:181-188 | The page becomes the most recent one; over capacity the least recently used page goes. |
| `PageCache.Cache.EvictOne` | src/pager.rs:192-209 | Stale heap entries are skipped and the least recently used live page is removed. |
| `PageCache.Cache.EvictOneIfFull` | src/pager.rs:218-223 | A page goes exactly when the cache is full and not empty; unless ticks have wrapped it is the least recently used one, and its own content is handed back. |
| `PageCache.Cache.Invalidate` | src/pager.rs:225-227 | Exactly that page is forgotten. |
| `PageCache.OldestFound` | src/pager.rs:192-209 | The smallest candidate that is current is the head of the recency order. |
| `PageCache.Cache.ValidIsLru` | src/pager.rs:125-227 | The recency order lists exactly the cached pages, each once. |
| `Freelist.Parse` | src/pager/freelist.rs:94-105 | The parsing loop equals the field-by-field reading, the leaf count clamped to the page. |
| `Freelist.WriteTrunk` | src/pager/freelist.rs:110-122 | The buffer becomes the trunk's fields followed by zeros. |
| `Freelist.TrunkRoundTrip` | src/pager/freelist.rs:94-122 | A written trunk parses back to itself. |
| `Freelist.TrunkLayout` | src/pager/freelist.rs:110-122 | Next trunk, count, leaves in order and zeros, each at its place. |
| `Freelist.LeafRead` | src/pager/freelist.rs:94-105 | Leaf i is read from its own place. |
| `Freelist.LeavesFit` | src/pager/freelist.rs:75-77 | A trunk takes as many leaves as there is room for behind the two fields, and not one more. |
| `Allocator.AllocateExtends` | src/pager.rs:985-1001 | With nothing free, the page after the last is handed out, zeroed, and the count raised. |
| `Allocator.AllocateReuses` | src/pager.rs:1003-1019 | Otherwise the last leaf, or the empty trunk, leaves the list, which stays well formed. |
| `Allocator.DeallocateKeeps` | src/pager.rs:1025-1066 | Freeing a page in use puts exactly that page on the list. |
| `Allocator.PushFrame` | src/pager.rs:1025-1066 | Freeing writes page 1, the first trunk and at most the freed page. |
| `Allocator.PageOneFields` | src/pager.rs:985-1066 | Page count, first trunk and free count stand at bytes 28, 32 and 36 of page 1; setting them leaves every other byte alone. |
| `FreelistRuns.EmptyListSound` | src/pager.rs:985-1066 | A database with an empty freelist is a state from which runs of the allocator may start, every page in use. |
| `FreelistRuns.AllocSound` | src/pager.rs:985-1019 | The page handed out was not in use, if and only if the page numbers are not exhausted; no page in use changes. |
| `FreelistRuns.FreeSound` | src/pager.rs:1025-1066 | Freeing moves one page from used to free and changes no other page in use. |
| `FreelistRuns.LastPageUsed` | src/pager.rs:985-1001 | With the numbers exhausted the last page is handed out a second time. |
| `FreelistRuns.RunSound` | src/pager.rs:985-1066 | In every state of every run the chain is acyclic, used and free pages partition the database and the header counts add up. |
| `FreelistRuns.NoReissue` | src/pager.rs:985-1066 | In every run, two allocations that return the same page have a free of it between them. |
| `FreelistRuns.StaysUsed` | src/pager.rs:985-1066 | A page in use stays in use until it is freed and keeps its content until it is edited. |
| `FreelistRuns.CheckFreelist` | src/integrity.rs:262-320 | The integrity walk is silent exactly on lists that are clean, and its chain-too-long report never occurs. |
| `FreelistRuns.SilentIff` | src/integrity.rs:262-320 | It is silent if and only if the list can be followed to its end through different trunks, every trunk and leaf number is a page of the database, and the header counts them. |
| `FreelistRuns.SoundIsSilent` | src/integrity.rs:262-320 | The check finds nothing in any state a run of the allocator reaches. |
| `PagerState.InitialOk` | src/pager.rs:405-460 | Any file of whole pages in rollback mode whose header counts some page, just opened, satisfies the invariant every operation keeps, however many pages it counts. |
| `PagerState.ExtendOk` | src/pager.rs:991-1001 | Extending keeps the connection coherent if and only if the new page is not cached and the last counted page exists. |
| `PagerState.FreshIsCommitted` | src/pager.rs:1171-1211 | A fresh connection on the same files sees exactly the committed database. |
| `PagerState.FlushLegacyOk` | src/pager.rs:583-637 | Writing every dirty page makes the working database the committed one. |
| `PagerState.FlushWalOk` | src/pager.rs:663-766 | Appending every dirty page to the log does the same, in the overlay and on disk. |
| `PagerState.UnsyncedCommit` | src/pager.rs:732-745 | Below full synchronization a fresh connection sees the commit exactly if it changed nothing. |
| `PagerState.CheckpointOk` | src/pager.rs:941-977 | A pass changes no one's view; a complete one leaves everything in the main file. |
| `PagerState.ToWalOk` | src/pager.rs:885-921 | Starting a log changes only the version bytes of page 1. |
| `PagerState.ToLegacyOk` | src/pager.rs:941-977 | Removing a fully copied log changes only those bytes. |
| `PagerState.PatchedFields` | src/pager.rs:1091-1102 | The patch sets bytes 18 and 19 to 2 for a log and to 1 without, changes no other byte, and so keeps the page count and sets the mode read back on open. |
| `Connection.Pager.Open` | src/pager.rs:405-460 | A new connection sees what the files hold, in the mode page 1 says; malformed logs and a missing page 1 are errors. |
| `Connection.Pager.LookUp` | src/pager.rs:1213-1247 | Dirty pages, overlay, cache and file are asked in this order, on any connection; the cache changes only as stated. |
| `Connection.Pager.ReadPage` | src/pager.rs:1213-1247 | On a sound connection that answers as the working database, and reading changes nothing anyone sees. |
| `Connection.Pager.GetPageMut` | src/pager.rs:466-479 | The page becomes dirty with its current content and leaves the cache. |
| `Connection.Pager.EditPage` | src/pager.rs:466-479 | An edit changes one page of the working database and nothing committed. |
| `Connection.Pager.AllocatePage` | src/pager.rs:985-1019 | Exactly the allocator on the working database, errors included; the connection stays sound if a free page is reused, and when extending if and only if the new page is not cached and no counted page is missing. |
| `Connection.Pager.DeallocatePage` | src/pager.rs:1025-1066 | Exactly the deallocator on the working database, errors included. |
| `Connection.Pager.JournalPreImages` | src/pager.rs:583-621 | The journal written is that of the pre-images of all counted dirty pages, by exactly the steps of the commit machine, synced unless syncing is off. |
| `Connection.Pager.WriteOut` | src/pager.rs:583-637 | Journal, pages, syncs and removal are a complete trace of the commit machine at the connection's level. |
| `Connection.Pager.FlushLocked` | src/pager.rs:583-637 | The working database becomes the committed one through such a trace of a commit crash recovery accepts; with the file as long as its count its journal is not empty. |
| `Connection.Pager.FlushWalLocked` | src/pager.rs:663-766 | The same through the log; below full synchronization the files still hold the old database. |
| `Connection.Pager.Flush` | src/pager.rs:491-539 | Both routes, a clean transaction included, end with nothing dirty and no lock; the steps of a rollback-journal flush are returned, and with a nonzero nonce a crash at any of them leaves the old or the new database exactly under the condition of `CommitSteps.AtomicIff` at the connection's level. |
| `Connection.Pager.Rollback` | src/pager.rs:778-781 | The working database is the committed one again. |
| `Connection.Pager.CheckpointAll` | src/pager.rs:941-977 | Up to 1000 passes keep every view; failing means a reader stood in the way on each. |
| `Connection.Pager.SetJournalMode` | src/pager.rs:794-827 | Refused with a transaction pending, a no-op in the same mode, otherwise only the version bytes change; incomplete checkpoints leave everything as it was. |
| `Connection.Pager.Begin` | src/pager.rs:546-559 | Taking the lock early changes no page. |
| `ConnectionRuns.Run` | src/pager.rs:405-827 | Every run of reads, edits, allocations, frees, commits, rollbacks, mode switches and reopenings answers as two plain page maps do, and leaves exactly the committed one in the files, as long as it does not extend the file onto an uncounted page it has read from it. |
| `ConnectionRuns.ExtendsFreely` | src/pager.rs:985-1001 | On a file as long as its count that proviso holds in every state of every run. |
| `StaleCache.StaleIff` | src/pager.rs:991-1001 | Extending onto a cached page and committing: the next read of it is right if and only if the old page was zero. |
| `StaleCache.StaleRead` | src/pager.rs:991-1001 | A run on a two-page file that counts one page, after which page 2 reads as it was although zeros are stored. |
| `CrashRuns.CrashAndReopen` | src/pager.rs:1133-1151 | After a crash at any step of a connection's full commit with a journal and a nonzero nonce, recovery and reopening give a connection to the old database (or, of a longer file, its counted pages) or to the new one, from which every run goes on. |
| `CrashRuns.TornWalCommit` | src/pager.rs:732-745 | After a crash that cuts a WAL commit short a fresh connection sees the database committed before. |
| `Cells.ReadVarint` | src/record/varint.rs:14-26 | The decoding loop equals the recursive reading of up to nine bytes. |
| `Cells.VarintIs` | src/record/varint.rs:14-26 | Bytes decode if and only if some prefix of at most nine is a varint, to the base-128 number of its low seven bits, a ninth byte counting in full. |
| `Cells.SignedIs` | src/btree.rs:1149 | The signed number is in range and the same modulo 2^64. |
| `Cells.HeadIs` | src/btree.rs:1691-1714 | A cell starts with its payload's length and, on a table leaf, the rowid, each a varint. |
| `Cells.CellBytes` | src/btree.rs:1691-1714 | A cell's length is decided by the cell's own bytes, wherever they lie. |
| `Cells.CellLenIs` | src/btree.rs:1691-1714 | A cell takes its varints, the part of the payload that stays, and four bytes exactly if it overflows. |
| `Cells.LocalPart` | src/btree.rs:622-644 | A payload overflows exactly above the limit; what stays lies between both limits and its cell fits on a page. |
| `Cells.LocalIsLeast` | src/btree.rs:635-643 | What stays is the least amount within the limits that leaves every overflow page full, and the smaller limit exactly if there is none. |
| `Cells.LocalShares` | src/btree.rs:623-634 | The limits in terms of the usable size, from 480 bytes on. |
| `Cells.LocalLimits` | src/btree.rs:623-634 | Their values for each page size. |
| `TreePages.OverflowIs` | src/btree.rs:646-675 | A cell's overflow pointer stands behind its head and the part that stays; none exactly if all of it stays. |
| `TreePages.PiecesIs` | src/btree.rs:764-800 | The overflow pages a payload takes are enough, and one fewer would not be. |
| `PageLayout.OneLayout` | src/btree.rs:1601-1675 | A page reads as one layout only. |
| `SpliceInsert.SpliceInsertCell` | src/btree.rs:1477-1509 | On a well-formed leaf the splice declines and changes nothing, exactly if the gap is too small, or leaves a well-formed leaf with the cell at `index` and every other cell unchanged. |
| `SpliceInsert.InsertedOk` | src/btree.rs:1477-1509 | The page so written is well formed and holds the old cells with the new one in place. |
| `PageRebuild.WriteLeafPage` | src/btree.rs:1234-1299 | If the cells fit, the in-place layout loops succeed and produce exactly header, pointers, gap and cells; writes past the page are refused. |
| `PageRebuild.RebuiltOk` | src/btree.rs:1234-1299 | Rebuilding then reading gives the cells back, on a page without fragments. |
| `PageRebuild.RebuiltBytes` | src/btree.rs:1242-1299 | Header fields and cells of a rebuilt page, each at its place. |
| `PageRebuild.RebuiltPointer` | src/btree.rs:1264-1274 | Pointer i says where cell i starts. |
| `PageRebuild.CollectLeafCells` | src/btree.rs:1030-1055 | Every cell is collected in pointer order, byte for byte, with the rowid its bytes carry. |
| `PageRebuild.SpliceRefinesRebuild` | src/btree.rs:1466-1509 | Whenever the splice succeeds a rebuild would fit, and both leave the same cells in the same order. |
| `Freeblocks.WalkFreeblocks` | src/btree.rs:1393-1414 | The walk returns the chain, or an error exactly past 10,000 blocks. |
| `Freeblocks.WriteFreeblockChain` | src/btree.rs:1421-1434 | Every block header and the first-freeblock field are written, nothing else. |
| `Freeblocks.LinkedChain` | src/btree.rs:1421-1434 | The chain written is the chain read back. |
| `Freeblocks.LinkedBytes` | src/btree.rs:1421-1434 | First block in bytes 1 and 2 of the page header; on each block the next one's offset, 0 at the end, and its size. |
| `Freeblocks.AddFreeblock` | src/btree.rs:1441-1464 | The freed range takes its place, swallowing the neighbours it touches. |
| `Freeblocks.AddedSpaced` | src/btree.rs:1436-1464 | The chain stays sorted, disjoint and never adjacent and grows by exactly the range. |
| `SpliceDelete.SpliceDeleteCell` | src/btree.rs:1524-1591 | Removal succeeds exactly within the chain limit, and then leaves a well-formed leaf with the other cells byte for byte; past the limit the cell is gone although an error is returned. |
| `SpliceDelete.FreedTiled` | src/btree.rs:1565-1590 | The bytes go to the gap, a freeblock or the fragments; cells, freeblocks and fragments stay the whole content area. |
| `SpliceDelete.DeletedOk` | src/btree.rs:1524-1591 | The page so written is well formed, its fragment byte exact up to 255. |
| `SpliceDelete.GrowGap` | src/btree.rs:1567-1574 | At most one freeblock can touch the gap, and it is taken into it. |
| `FreeblockLimit.CrowdedIsWellFormed` | src/btree.rs:1307-1414 | A well-formed 64 KiB leaf with 10,001 freeblocks and a cell whose removal is reported as an error. |
| `FreeTree.DeallocAllKeeps` | src/pager.rs:1025-1066 | Freeing distinct pages in use puts exactly them on the list, raises the count by their number and disturbs no other page. |
| `OverflowReread.TrunkWalk` | src/btree.rs:764-802 | Read as an overflow chain, the trunk list is exactly as long as it has trunks. |
| `OverflowReread.Reassemble` | src/btree.rs:710-802 | The loop over an overflow chain equals the recursive reading of it, its errors included. |
| `OverflowReread.ReassembledBytes` | src/btree.rs:764-802 | On a chain with every page it needs, the result is the total length, and byte k is byte k mod n behind the link of page k div n, n bytes to a page. |
| `OverflowReread.KeyBytes` | src/btree.rs:710-802 | A key is the bytes on its own page, then those on its chain in that order. |
| `OverflowReread.ReadKey` | src/btree/index.rs:609-638 | A key is read exactly if its payload can be reassembled and decodes, and is then the payload's values. |
| `OverflowReread.ReadKept` | src/btree.rs:710-802 | Bytes read along a chain whose pages are unchanged are unchanged. |
| `Records.DecodeRecord` | src/record/decode.rs:13-56 | The header and column loops accept exactly the payloads with a complete header, complete columns and valid text, and yield their values. |
| `RecordValues.RecordIs` | src/record/decode.rs:13-56 | A payload that decodes is a header length, serial types one after another up to it, and a body for each in order up to the end. |
| `RecordValues.RecordDecodes` | src/record/decode.rs:13-56 | A payload laid out so decodes to the values of its bodies. |
| `RecordValues.Widths` | src/record/decode.rs:261-273 | How many bytes each serial type takes. |
| `RecordValues.ColumnIs` | src/record/decode.rs:309-393 | The value of each serial type: NULL, 0, 1, an integer by its bytes, a real unless it is no number, text, or the bytes. |
| `RecordValues.IntegerIs` | src/record/decode.rs:316-351 | An integer body is the two's complement of the integer read, which is in range, and negative exactly if the first bit is set. |
| `RecordValues.NanIs` | src/record/decode.rs:352-363 | A float is no number exactly if, sign aside, its pattern lies above that of infinity. |
| `RecordValues.Utf16Is` | src/record/decode.rs:407-416 | Bytes decode as UTF-16 if and only if they are some characters in UTF-16, and then to the same characters in UTF-8. |
| `RecordValues.Utf8Is` | src/record/decode.rs:396-400 | Bytes are taken as UTF-8 if and only if they are some characters in UTF-8. |
| `Records.TextIsUtf8` | src/record/decode.rs:395-415 | Text decoded from any of the three encodings is well-formed UTF-8. |
| `OverflowReread.RereadIff` | src/btree.rs:764-802 | A freed overflow chain can be followed again exactly if its pages became leaves, or older trunks make up for the rest. |
| `FreeTreeWalk.FreeOverflowChain` | src/btree.rs:677-708 | A chain is freed page by page, each once, up to the traversal limit. |
| `FreeTreeWalk.FreeCells` | src/btree.rs:885-903 | Every cell's chain of one page is freed, each once. |
| `FreeTreeWalk.Children` | src/btree/index.rs:568-598 | Collecting an interior page's entries gives its children; on an index it succeeds exactly if every key can be read and decodes. |
| `FreeTreeWalk.AllReadIff` | src/btree.rs:925-952 | All chains of an interior index page can be followed again exactly under a condition on the freelist before the walk. |
| `FreeTreeWalk.KeyReadIff` | src/btree.rs:925-952 | A key of an interior index page can be read in full after its page's chains are freed if and only if the freelist before the walk lets its chain be followed. |
| `FreeTreeWalk.LeavesKept` | src/pager.rs:1025-1066 | Pages that all find room on the first trunk keep their bytes when freed. |
| `FreeTreeWalk.FreeBtreePages` | src/btree.rs:856-963 | A well-formed tree is freed, each page exactly once in post-order, if and only if it is within the limit and every interior index page can still read and decode its keys once their chains are freed. |
| `FreeTreeWalk.FreeKids` | src/btree.rs:905-911 | The subtrees are freed from left to right, each exactly once, under the same condition. |
| `FreeTreeWalk.RoomyTreeIsFreed` | src/btree.rs:856-963 | A tree whose interior index keys decode and whose interior overflow pages find room on the freelist is freed exactly: list, count and untouched pages. |
| `FreeTreeWalk.PlainTreeIsFreed` | src/btree.rs:856-963 | So is one without overflowing interior index keys, a table in particular. |
| `FreeTreeWalk.EmptyFreelistBreaks` | src/btree.rs:925-952 | With an empty freelist an interior index key overflowing into two pages or more makes the walk fail. |
| `FreeTreeExamples.CutIndexFails` | src/btree.rs:925-952 | A well-formed index on pages 2 to 6, built byte by byte, that cannot be dropped because a freed chain of two pages is cut. |
| `FreeTreeExamples.GarbledIndexFails` | src/btree.rs:925-952 | Another whose chains can all be followed, but whose first key then reads as a trunk and is not UTF-8. |
| `FreeTreeWalk.TreeKept` | src/btree.rs:867-963 | A tree is read off its own pages alone, so freeing elsewhere never disturbs it. |
| `IndexKeys.CompareKeyLoop` | src/btree/index.rs:518-526 | Less if and only if one key is a proper beginning of the other or has the smaller value where they first differ, equal only for the same key. |
| `IndexKeys.CompareValuesIs` | src/btree/index.rs:484-513 | A value is smaller exactly if NULL comes before numbers, numbers before text, text before blobs, numbers go by size, and text and blobs by the first differing byte or the shorter. |
| `IndexKeys.KeysFlip` | src/btree/index.rs:495-526 | Any two keys compare one way only, and equal only if they are the same. |
| `IndexKeys.KeysTransitive` | src/btree/index.rs:495-526 | The order is transitive. |
| `IndexKeys.BinarySearch` | src/btree/index.rs:197-222 | The first key of a page not less than the target. |
| `IndexCursor.Cursor.Advance` | src/btree/index.rs:278-317 | Returns the head of what is left, which then loses it; ends exactly when nothing is left. |
| `IndexCursor.Cursor.AdvanceDesc` | src/btree/index.rs:352-393 | Returns the last of what is behind, which then loses it. |
| `IndexCursor.Cursor.First` | src/btree/index.rs:103-110 | The first entry in order; the rest remains. |
| `IndexCursor.Cursor.Last` | src/btree/index.rs:123-130 | The last entry in order; the ones before it remain. |
| `IndexCursor.ScanForward` | src/btree/index.rs:103-117 | Running to exhaustion yields the in-order entries, interior keys interleaved, exactly if the tree has at most 1,000,000 pages. |
| `IndexCursor.ScanBackward` | src/btree/index.rs:123-134 | The other way round it yields exactly the reverse. |
| `IndexCursor.Cursor.SeekToLeaf` | src/btree/index.rs:161-185 | The descent reaches the leaf the target belongs on, exactly if the path is within the page limit. |
| `IndexCursor.Cursor.Seek` | src/btree/index.rs:161-191 | Within the page limit and only then, the cursor lands on the first entry not less than the target and what is left is exactly the suffix from there. |
| `IndexPages.SearchIndexLeaf` | src/btree/index.rs:675-709 | On page bytes, the key's position on the leaf, or the place between smaller and greater keys. |
| `IndexPages.CollectEntries` | src/btree/index.rs:568-597 | Child pointers and keys of an interior index page, in order; it succeeds exactly if every key can be read. |
| `IndexPages.DescendIndexTree` | src/btree/index.rs:750-817 | On page bytes, an interior match is returned, naming the first equal entry's child, if and only if the key is an interior entry; otherwise the leaf and path reached are those of the only leaf that can hold it; it fails exactly past the page limit. |
| `IndexPages.Locate` | src/btree/index.rs:675-817 | Together they decide membership and give the position that keeps the index sorted, exactly within the page limit. |
| `IndexBytes.SmallIndexLookups` | src/btree/index.rs:675-817 | Three keys found and a fourth not in an index built byte by byte on three pages. |
| `IndexPages.IndexKept` | src/btree/index.rs:568-638 | An index's entries depend on its own pages only, overflow pages included. |
| `IndexPages.FreeingKeepsIndexes` | src/pager.rs:1025-1066 | Freeing pages leaves the entries of every index that shares none of them alone. |
| `TableTree.OnItsLeaf` | src/btree.rs:290-396 | A row is in the table if and only if it is on the leaf its rowid leads to. |
| `TableTree.Seek` | src/btree.rs:290-396 | Seek finds the rowid if and only if it occurs in the scan, along the path of the linear search, exactly within the page limit. |
| `TablePages.FindLeafPage` | src/btree.rs:808-847 | On page bytes, the linear descent returns the page numbers of that same path and leaf, exactly within the page limit. |
| `TablePages.CollectEntries` | src/btree.rs:1132-1154 | Child pointers and keys of an interior page, in order, the rightmost pointer last. |
| `TablePages.LeafOnPages` | src/btree.rs:808-847 | The leaf and path on the pages are those of the table the pages hold. |
| `TablePages.OnItsPage` | src/btree.rs:290-396 | In an ordered table a rowid is among the rows if and only if a cell of that one leaf page holds it. |
| `TableBytes.RowIdIs` | src/btree.rs:1030-1055 | On a well-formed leaf a row is the rowid its cell's own bytes carry. |
| `TableBytes.InteriorCellIs` | src/btree.rs:1132-1154 | An interior cell is reached through the pointer behind the twelve-byte header; its child is its first four bytes, its key the varint after them. |
| `TableBytes.SmallTableLookups` | src/btree.rs:808-847 | Two rows looked up and counted in a table built byte by byte with its root on page 1. |
| `TablePages.TableKept` | src/btree.rs:971-1023 | A table's rows depend on its own pages only. |
| `TablePages.FreeingKeepsTables` | src/pager.rs:1025-1066 | Freeing pages leaves the rows of every table that shares none of them alone. |
| `TablePages.CountTableRows` | src/btree.rs:971-1023 | On page bytes, the sum of the leaves' cell counts is the length of the scan over the rows the pages hold, exactly within the traversal limit. |
| `TableCursor.Cursor.Advance` | src/btree.rs:469-509 | Returns the head of the rows left, which then lose it. |
| `TableCursor.Cursor.AdvanceRev` | src/btree.rs:527-563 | Returns the last of the rows behind, which then lose it. |
| `TableCursor.Cursor.Prev` | src/btree.rs:239-247 | Refused unless the cursor was placed by `last`. |
| `TableCursor.ScanForward` | src/btree.rs:163-191 | `first` and `next` yield the rows in order. |
| `TableCursor.ScanBackward` | src/btree.rs:208-247 | `last` and `prev` yield them reversed. |

## Left out

- File locks and the bytes of the `-shm` file: lock claims and reader marks are steps or parameters; a `BEGIN` lock is one flag.
- I/O failures other than short reads: every write and sync is taken to succeed, or to be lost in a crash where the crash model says so. Syncing a journal is taken to make the file itself durable; deleting it may or may not survive a crash.
- Clocks and randomness: the journal nonce and the log salts are parameters.
- `recreate_wal_locked`, the branch that rebuilds a log another process deleted: one connection at a time is modelled, so the log does not vanish.
- Frames committed by another connection while this one is open: the pager keeps no watch on them, and the whole-connection result is for one connection.
- A stale `-wal` or `-journal` beside a database in rollback mode: both are taken to be absent when a connection starts.
- Connection.Pager.EditPage: edits of page 1 are assumed to keep the page count and the version bytes, which only the pager itself writes.
- Connection.Pager.AllocatePage: a freelist that starts at page 1, or exhausted page numbers, is excluded here; the second case is what FreelistRuns.LastPageUsed is about.
- Connection.Pager.ReadPage: a file whose header counts no page at all is not a sound connection here; Connection.Pager.LookUp has no such condition.
- Connection.Pager.DeallocatePage: freeing page 1, or a freelist that starts there, is excluded; it would overwrite the file header.
- Connection.Pager.Flush: after a WAL commit below full synchronization no further commit is followed, since the log then lacks pages.
- ConnectionRuns.Run: commits are at full synchronization; mode switches meet no other reader; extending the file with a counted page missing, or onto an uncounted page that was read from it or freed and not edited since, is excluded, and StaleCache shows what happens then.
- PageCache.Cache.EvictOne: least-recently-used order is exact until the 64-bit tick wraps; afterwards some cached page is evicted.
- CommitSteps.CommitIsAtomic: writes survive whole or not at all, page by page; a page torn in the middle is covered for journaled pages only. A file longer than its count may come back cut to it.
- Snapshots.SnapshotIsolation: a transaction's frames reach the log in one step.
- Detection of corruption by checksums: nothing is claimed beyond salts, checksums and headers that match.
- SpliceInsert.SpliceInsertCell: malformed pages and an index past the cell count are not followed into the errors they may give.
- SpliceDelete.SpliceDeleteCell: malformed pages are not followed either.
- PageRebuild.WriteLeafPage: what is on the page when cells do not fit is not stated, since the code can then write them over each other; interior pages differ by their four-byte child pointer only.
- FreeTreeWalk.FreeBtreePages: on malformed trees only the shape of the database is kept.
- IndexCursor.Cursor.Advance: pages are nodes of a tree value, which IndexPages.IndexOf reads off the pages; unreadable pages and pointer cycles do not arise, the page limit does.
- TableCursor.Cursor.Advance: as for the index cursor; TablePages.TableOf reads the tree value off the pages.
- Real numbers: comparing integers with reals goes through floating point and is not an order; decoding keeps a real's bytes, and index lookups are for keys without reals.
- B-tree inserts and deletes with page splits and merges, the SQL layers, the command line and all formatting.
