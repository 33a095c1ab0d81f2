# Lissandra, modelled and proved

Lissandra is a key/value store in three processes.  LFS keeps the records of each table in a
memtable, in dumps (`.tmp`), in dumps being compacted (`.tmpc`) and in partitions (`.bin`), over a
block file system with a bit map.  Memoria is a write-back page cache in front of it.  Kernel runs
scripts round robin.  This project models their logic in Dafny and proves what it promises.

How the files build on each other:

| file | about |
|---|---|
| Basics, Records | machine integers; records, and what the newest record of a key is |
| Codec | the `timestamp;key;value` text form of the files, written and parsed |
| Bitarray, Allocator, BlockLists, Volume, BlockFs | bit maps, block allocation, files made of blocks |
| Engine, History | one table of LFS as a state machine of its lock-delimited steps; what they do to its records, and its runs |
| Space | the blocks that a dump and a commit need, and which requests are met, also with other tables in between |
| Compaction, StoreView, Lfs | the program's data structures, and its operations as steps of that machine |
| Frames, Cache, Pages, Memory | the frame buffer, the abstract cache, page tables, the cache of the program |
| EndToEnd, Client | cache and engine together as a plain map: all interleavings, and the memory's API |
| Losses, StaleRead | runs outside the hypotheses: a dump and a commit that lose a record, SELECTs with a stale answer |
| MergeSort, LinkedList, HashMap | the in-place list sort and the chained hash map |
| Runner, Gossip | the script scheduler and the exchange of memory tables |

Each object that the program updates in place is a class (`BlockAllocator`, `BlockFileSystem`,
`StorageEngine`, `FrameStore`, `MainMemory`, `Process`, `List`, `HashMap`, `Kernel`, `Memory` of
gossip).  Its methods follow the source's loops and branches and are proved against functions on
values; the lemmas about those functions say what the program promises.

The methods of `Client.Process` are the steps of the machine of `EndToEnd`, and their contracts say which
(`Client.Makes`), so the theorems about its runs are about them.

Some predicates (`Consistent`, `Represents`, `Linked`, `Merging`, `StrictWeak`, `IsMap`, `AfterAsking`) quantify
over one value only, with a trigger.  That is a way to keep a large definition closed until a proof
mentions it.

## Hypotheses of the model

- Ties.  Every comparison of timestamps is strict, so the first of the newest records seen wins.
  Timestamps are preserved unconditionally; whole records are, when two records of a key with the
  same timestamp are equal.
- Clock.  Between two acknowledged inserts of a key the clock has moved on.  `StaleRead.TieIsServed` is a
  run in which it has not, and a SELECT gets the first of the two.
- In flight.  From the exchange of memtables to the dump of a table, its records are in the old
  memtable, which SELECT does not read.  They belong to the logical contents.  A SELECT is right exactly
  when what it sees covers the records of its key in flight (`Engine.NoneHidden`): this is the condition
  in `History.AnswerIsNewestIff`, `EndToEnd.StoreAnswerIsLatestIff` and `Client.Process.Select`.
  `StaleRead.StaleIsServed` is a run in which it does not hold, and the stale value stays in the cache.
- Space.  A dump or a commit that finds no free blocks loses records in the program too.  Which of them
  do is a function of the state before: of the free blocks for a dump, and of the free blocks, the
  blocks of the renamed files, those of each partition and the newest records read for a commit
  (`Space.Granted`).  `History.DumpKeepsNewestIff` and `History.CommitKeepsNewestIff` say when the
  newest record of a key is lost.  `Losses.DumpLosesRecord` and `Losses.CommitLosesRecord` are runs of
  the engine, from its creation on, that lose one.
- Other tables.  The program locks one table during a dump or a commit, and the bit map only for each
  call.  So `DumpTable`, `Dump`, `CompactCommit`, `Compact` and what is built on them assume that no other
  table asks for blocks or frees some between the first and the last request of one dump or commit.
  Without this, `WriteDump` and `RewritePartitions` say how both end when others take blocks in between, and
  `Space.AllGrantedAmidIff` when that cannot matter: when nothing is needed, or when there is enough for
  everybody.
- LFS steps are atomic where the program holds a lock.  A SELECT is two steps in `Engine` and, when it
  misses the cache, in `EndToEnd`: its files under the shared lock, then the memtable.  The memory
  waits for the answer and does nothing else meanwhile.
- A table is not dropped while a dump has its records; at most one compaction of a table runs;
  partition counts are positive; table names are in upper case.
- `dictionary` is a map: its keys are compared by hash code only, so this assumes no collisions.
- In `buscarBloqueLibre` the bit is tested before the bound; the model tests the bound first.
- The memory's own operations are atomic and do not overlap a journal.

## Model

| member | source | states |
|---|---|---|
| Records.ScanIsFirstNewest | LFS/Memtable.c:69-85 | The running-maximum scan returns a record exactly when it is the first of the newest records of the key, and nothing exactly when the key has none. |
| Records.ScanRecords | LFS/Memtable.c:58-92 | The memtable scan finds the newest record of the key. |
| Records.ScanConcat | LFS/LissandraLibrary.c:489-493 | Scanning two lots of records and keeping the better result is scanning them one after the other. |
| Records.GetNewest | LFS/LissandraLibrary.c:504-530 | The best of partition, temporaries and memtable, an earlier source winning ties. |
| Records.LossIff | LFS/Memtable.c:119-125 | Losing records changes the newest timestamp of a key exactly when one of them is newer than all that is left. |
| Codec.RoundTrip | LFS/Memtable.c:130-138 | A list of records printed as lines and parsed again is the same list exactly when every value is non-empty and free of `;` and newline. |
| Codec.DecimalBytes | LFS/Memtable.c:130-138 | A number is printed as ASCII digits, its last digit last and no zero in front. |
| Codec.LineBytes | LFS/Memtable.c:130-138 | Byte by byte, a line is the digits of the timestamp, a semicolon, the digits of the key, a semicolon and the value, and the digits have the values of both. |
| Codec.RenderBytes | LFS/Memtable.c:130-138 | A file is its lines in order, each with a newline after it. |
| Codec.NumberFields | LFS/LissandraLibrary.c:381-396 | Of a field that begins with a number the reader takes the number, the timestamp capped at 64 bits, the key refused beyond 16 bits of its low 32. |
| Codec.LineReadsFirstToken | LFS/LissandraLibrary.c:381-396 | Of a value the reader gets the first run of bytes other than `;`, and a value without one makes the line unreadable. |
| Codec.ValueCutAtSemicolon | LFS/LissandraLibrary.c:381-396 | A value that has text before its first `;` is read back cut there, so it changes. |
| Codec.RenderRecords | LFS/Memtable.c:130-138 | The dump's loop prints the records in order, one line each. |
| Codec.StringSplit | Shared/libcommons/string.c:353-382 | Splitting gives the non-empty runs between separators, in order. |
| Codec.GetBiggestTimestamp | LFS/LissandraLibrary.c:371-417 | The scan of a file's text agrees with the scan of the records it has of the key; it looks for the value of no line of another key, or with an invalid one. |
| Codec.ScanForIsScan | LFS/LissandraLibrary.c:371-417 | On a file that can be read as a whole this is the scan of all its records. |
| Bitarrays.BitInCharIsMask | Shared/libcommons/bitarray.c:22-34 | The mask of a bit is the power of two of its place in the byte, counted from the low end in one bit order and from the high end in the other. |
| Bitarrays.Bitarray.TestBit | Shared/libcommons/bitarray.c:52-55 | Reads one bit of the packed map. |
| Bitarrays.Bitarray.SetBit | Shared/libcommons/bitarray.c:57-60 | Sets one bit and leaves every other as it was. |
| Bitarrays.Bitarray.CleanBit | Shared/libcommons/bitarray.c:62-67 | Clears one bit and leaves every other as it was. |
| Allocation.BlockAllocator.FindFreeBlock | LFS/LissandraLibrary.c:172-189 | Takes the lowest free block, and fails exactly when there is none. |
| Allocation.BlockAllocator.RequestBlocks | LFS/LissandraLibrary.c:606-641 | Takes the n lowest free blocks, or leaves the bit map as it was when fewer are free. |
| BlockFs.BlockFileSystem.BlocksAreConserved | LFS/LissandraLibrary.c:172-208 | The used bits are exactly the blocks of the files and the reserved ones, no block is in two files, and free, owned and reserved blocks add up to all. |
| BlockFs.BlockFileSystem.WriteFile | LFS/LissandraLibrary.c:668-722 | Succeeds exactly when file and free blocks suffice; then the file holds the buffer, its block list is the old one and what it lacked, and no other file changes; otherwise nothing has changed. |
| BlockFs.BlockFileSystem.ReadFile | LFS/LissandraLibrary.c:532-604 | Returns exactly the bytes last written, whatever surplus of blocks the file has. |
| BlockFs.BlockFileSystem.CreateFile | LFS/LissandraLibrary.c:724-732 | A new empty file that owns the block reserved for it; every other file keeps its contents and blocks. |
| BlockFs.BlockFileSystem.DeleteFile | LFS/LissandraLibrary.c:734-761 | The file goes, exactly its blocks become free, and every other file keeps its contents and blocks. |
| BlockFs.BlockFileSystem.DeleteTable | LFS/LissandraLibrary.c:329-358 | Exactly the files of the table go, exactly the blocks they owned become free, and every other file is as it was. |
| BlockFs.BlockFileSystem.RenameFile | LFS/Compactador.c:266-280 | A renamed file keeps contents and blocks, and no other file changes. |
| Volumes.Ownership | LFS/LissandraLibrary.c:668-761 | A block has an owner exactly when some file lists it, and only one file does. |
| BlockLists.FewestBlocks | LFS/LissandraLibrary.c:668-722 | So many bytes fit in n blocks exactly when n is at least the number the program computes for them. |
| Engine.StepInv | LFS/Compactador.c:95-153 | Every step keeps: partitions hold only their keys, no `.tmpc` without a compaction, a compaction has read exactly the partitions and renamed files passed so far. |
| Engine.RenameClobbersNothing | LFS/Compactador.c:98-107 | The rename overwrites no file, leaves no `.tmp` and loses no record. |
| Engine.CommitHasReadAll | LFS/Compactador.c:109-126 | At its commit a compaction has read the unchanged partitions and `.tmpc` files, and nothing else. |
| Engine.CommitSources | LFS/Compactador.c:128-148 | A commit writes only records of the merged files, and leaves dumps made meanwhile alone. |
| Engine.CommitKeepsPartition | LFS/Compactador.c:136-148 | A rewritten partition still covers every record that was merged into it. |
| Engine.ListingScan | LFS/Compactador.c:141-146 | For every key the new file answers as the scan of all the files merged. |
| Engine.ScopeSuffices | LFS/API.c:36-67 | Reading one partition and the temporaries finds the newest record of all the files. |
| History.StepCondenses | LFS/Memtable.c:103-182 | Up to the records it may lose for lack of space, a step keeps for every record one of its key at least as new, and invents none. |
| History.StepCondensesIff | LFS/Memtable.c:103-182 | It does so without exception exactly when what it cannot lose covers what it may lose. |
| History.StepKeepsNewest | LFS/Memtable.c:103-182 | A step preserves the newest timestamp of a key exactly when the records that it could not have lost cover those it may lose. |
| History.DumpKeepsNewestIff | LFS/Memtable.c:119-149 | For a dump: it finds its blocks, or what SELECT sees before it covers the records in flight. |
| History.CommitKeepsNewestIff | LFS/Compactador.c:128-148 | For a commit: the key's partition finds its blocks, or records outside the `.tmpc` files cover those in them. |
| History.StepMonotone | LFS/Compactador.c:98-153 | In lossless steps newest timestamps never decrease, and only an insert of the key changes them. |
| History.AnswerIsNewestIff | LFS/API.c:49-89 | A SELECT answers with the newest record of the table exactly when no record in flight is newer than all it can see. |
| History.InFlightIsInvisible | LFS/Memtable.c:171-182 | A concrete run in which a SELECT between swap and dump does not find a record that was inserted. |
| History.RunCondensesInserts | LFS/Memtable.c:103-182 | After any interleaving of lossless steps, the table is a condensed form of all inserts. |
| History.SelectReturnsNewestInsert | LFS/API.c:17-94 | After any such run a SELECT returns the newest insert of the key exactly when no newer record of it is hidden in flight. |
| Losses.DumpLosesRecord | LFS/Memtable.c:119-125 | A run of the engine on a disk of one block: the insert is answered, its dump finds no block, and it is gone. |
| Losses.CommitLosesRecord | LFS/Compactador.c:128-148 | A run on three blocks of twelve bytes: after three rounds of two inserts, a dump and a compaction, the second of two partitions finds no block and a dumped record is gone. |
| Compaction.MergedAgrees | LFS/Compactador.c:215-234 | Merging one line keeps the dictionaries equal to a scan of everything merged. |
| Compaction.MergeContents | LFS/Compactador.c:193-240 | Merging a file's text into the per-partition dictionaries agrees, for every key, with scanning its records after the ones before. |
| Compaction.RenderDictionary | LFS/Compactador.c:322-330 | A dictionary is written as the newest record of each key of its partition, once each, in any order. |
| Space.ListingLength | LFS/Compactador.c:322-330 | The length of a partition's new text is known from the records read, whatever the order of its lines. |
| Space.NeedsOfSet | LFS/Compactador.c:109-148 | Without ties between different records the order in which files are merged does not change the blocks needed. |
| Space.AllGrantedIff | LFS/LissandraLibrary.c:668-722 | Writing one file after another, every one finds its blocks exactly when there are blocks for all together. |
| Space.AllGrantedAmidIff | LFS/LissandraLibrary.c:172-189 | When other tables may take up to some number of blocks before each request, all are met in every case exactly when none are needed or there are blocks for both. |
| StoreView.FreeNameShown | LFS/Memtable.c:140-142 | The first `n.tmp` that does not exist is the number the machine dumps under. |
| Lfs.StorageEngine.Insert | LFS/API.c:96-115 | Appends the record to the table's memtable, or fails when the table does not exist: a step of the machine. |
| Lfs.StorageEngine.SwapMemtable | LFS/Memtable.c:171-177 | The exchange of memtables is the swap step of every table at once. |
| Lfs.StorageEngine.WriteDump | LFS/Memtable.c:119-149 | How a dump ends when other tables take blocks between its first block and its write: with no file, an empty one or one with all its records, by the free blocks there were. |
| Lfs.StorageEngine.DumpTable | LFS/Memtable.c:103-151 | The dump of a table that no other disturbs is one step of the machine: the records in flight go into the first free `.tmp`, or are lost, as the free blocks decide, and it takes as many of them as that needs. |
| Lfs.StorageEngine.Dump | LFS/Memtable.c:167-182 | A whole dump swaps every table and then dumps each one that had records; all of them are stored exactly when the free blocks suffice for all together, in whatever order they come, and then exactly that many are taken.  No other operation asks for blocks meanwhile. |
| Lfs.StorageEngine.CompactRename | LFS/Compactador.c:78-107 | Starts exactly when the table has a `.tmp`; then it is the rename step. |
| Lfs.StorageEngine.CompactMergeBin | LFS/Compactador.c:111-124 | Merging the next partition is a step of the machine. |
| Lfs.StorageEngine.CompactMergeTmpc | LFS/Compactador.c:295-308 | Merging any `.tmpc` still pending is a step of the machine. |
| Lfs.StorageEngine.CompactCommit | LFS/Compactador.c:128-153 | Deleting the `.tmpc` files and rewriting the partitions is the commit step: a rewritten partition has its new contents, every other its old ones, and dumps and memtables are as they were.  The blocks, sizes and records there are before it determine exactly which partitions are rewritten and how many blocks are left.  No other table asks for blocks meanwhile. |
| Lfs.StorageEngine.RewritePartitions | LFS/Compactador.c:136-148 | The partitions in turn get their new text if the blocks left suffice, by those before and by other tables that take some before each write, and keep the old one otherwise. |
| Lfs.StorageEngine.RewritePartition | LFS/Compactador.c:138-146 | A partition gets its new text exactly when the blocks it lacks are free at its own write, and takes exactly those. |
| Lfs.StorageEngine.Compact | LFS/Compactador.c:71-161 | An undisturbed compaction leaves each rewritten partition with the newest record of each of its keys, once, and no temporary file; the blocks there are at its start determine which partitions are rewritten and how many blocks are left. |
| Lfs.StorageEngine.ScanTemporaries | LFS/LissandraLibrary.c:430-502 | Finds the newest record of the key in all `.tmp` and `.tmpc` files, whatever order they are listed in. |
| Lfs.StorageEngine.Select | LFS/API.c:17-94 | Answers with the newest visible record of the key, of equally new ones that of the partition before those of the temporaries before that of the memtable, and tells a missing key from a missing table. |
| Lfs.StorageEngine.Create | LFS/API.c:117-180 | Creates the table with empty partitions, each in one block, exactly when it is new and the blocks suffice; otherwise files and free blocks are as before. |
| Lfs.StorageEngine.Drop | LFS/API.c:186-216 | The table goes from files, memtable and compactions, and its blocks become free. |
| Frames.FrameRoundTrip | Memoria/MainMemory.c:168-178 | A frame is read back as written exactly when the value has no NUL and fits, with or without a terminator. |
| Frames.FramesAreApart | Memoria/MainMemory.c:121-124 | Different frames occupy disjoint ranges of the buffer. |
| Frames.FramesFit | Memoria/MainMemory.c:37-38 | The frames counted fit in the memory, and one more would not. |
| Frames.FrameStore.Write | Memoria/MainMemory.c:168-178 | Writing a frame leaves the bytes of every other frame alone. |
| Frames.FrameStore.Read | Memoria/MainMemory.c:121-124 | Reads the frame's own bytes. |
| PageCache.FirstCleanIs | Memoria/SegmentTable.c:66-87 | The victim is clean and every page used before it is dirty; there is none exactly when all pages are dirty. |
| PageCache.EvictedIs | Memoria/SegmentTable.c:89-97 | An eviction takes this page and no other, and leaves the order of use of the others. |
| PageCache.LoadedIs | Memoria/PageTable.c:37-45 | A page that is stored has the new contents and is the last one used; all other pages and their order are as they were. |
| PageCache.TouchedIs | Memoria/PageTable.c:85-95 | A page that is read becomes the last one used; nothing else changes. |
| PageCache.MakeRoomIs | Memoria/MainMemory.c:180-212 | With the flag set nothing happens.  With a free frame nothing is evicted.  Else exactly one page goes, a clean one before which only dirty pages were used, and the others stay in their order; and if there is none, only the flag is set. |
| PageCache.MakeRoomInv | Memoria/MainMemory.c:180-212 | Making room succeeds exactly when the flag is clear and there is a free frame or a clean page, evicts nothing while a frame is free and never a dirty page; with an exact flag it fails exactly when there is no free frame and no clean page. |
| PageCache.RunInv | Memoria/MainMemory.c:63-156 | After any operations the flag implies that all frames hold dirty pages, provided no table with pages was dropped while it was set. |
| PageCache.WithoutTableIs | Memoria/MainMemory.c:98-101 | A drop takes the pages of the table and no other; the order of the others and the flag stay. |
| PageCache.DropKeepsFullExactIff | Memoria/MainMemory.c:98-101 | A drop leaves the flag exact exactly when it is clear or the table has no pages. |
| PageCache.DropLeavesCacheStuck | Memoria/MainMemory.c:180-183 | A full cache that drops a table with pages refuses every new page although frames are free. |
| PageCache.StuckCacheIsReachable | Memoria/MainMemory.c:98-101 | Two inserts into a memory of one frame and a drop lead there: the memory is empty and refuses every insert. |
| PageCache.JournalMakesRoom | Memoria/MainMemory.c:149-156 | After a journal the next insert finds room, and its page is the only one. |
| PageCache.UpsertedPages | Memoria/MainMemory.c:74-91 | An insert is accepted exactly when its page is there or there is room, and is then in the cache, dirty and last used; the pages are otherwise the same ones, less the victim when no frame was free, and in the same order; a refused one sets the flag and nothing else. |
| PageCache.FetchedPages | Memoria/MainMemory.c:63-72 | The same of a value read from LFS, whose page is clean. |
| Pages.Resident | Memoria/SegmentTable.c:89-97 | A page's frame holds its table entry's key, timestamp and value, and no other page's. |
| Pages.PagesAreApart | Memoria/PageTable.c:37-45 | Different pages have different frames and different use counters. |
| Pages.SmallestIsVictim | Memoria/SegmentTable.c:141-158 | The clean page with the smallest counter is the least recently used clean page of all tables. |
| Memory.MainMemory.FrameNumber | Memoria/PageTable.c:85-95 | Finding a page makes it the most recently used. |
| Memory.MainMemory.GetFrame | Memoria/MainMemory.c:103-114 | Returns the cached record, or nothing when the page is not resident. |
| Memory.MainMemory.LruPage | Memoria/PageTable.c:47-66 | The scan of a page table finds its clean page with the smallest counter, in any order. |
| Memory.MainMemory.LruFrame | Memoria/SegmentTable.c:66-87 | The two-level scan finds the victim of the whole cache. |
| Memory.MainMemory.Preempt | Memoria/SegmentTable.c:89-97 | Evicts the page found by the key stored in the frame, which is that frame's page, and its segment when it was the last one. |
| Memory.MainMemory.EvictLru | Memoria/SegmentTable.c:66-100 | Evicts exactly the victim; fails exactly when all pages are dirty. |
| Memory.MainMemory.GetFreeFrame | Memoria/MainMemory.c:180-212 | Finds a frame exactly when the flag is clear and there is a free frame or a clean page, evicts nothing while a frame is free, and otherwise the victim of the abstract cache. |
| Memory.MainMemory.InsertNewValue | Memoria/MainMemory.c:63-72 | A value read from LFS becomes a clean page as the abstract cache has it (FetchedPages), or the memory is full. |
| Memory.MainMemory.UpsertValue | Memoria/MainMemory.c:74-91 | A client's value is written to its page or a new one and marked dirty as the abstract cache has it (UpsertedPages), also when making room evicts the last page of its own table. |
| Memory.MainMemory.EvictPages | Memoria/SegmentTable.c:115-121 | The pages of a table and their frames go; the flag does not change. |
| Memory.MainMemory.DirtyFrames | Memoria/SegmentTable.c:102-113 | Lists each dirty page exactly once and no clean one. |
| Memory.MainMemory.CleanMemory | Memoria/MainMemory.c:149-156 | Empties the cache and clears the flag. |
| EndToEnd.StepInv | Memoria/API.c:28-107 | Every client, journal, dump and compaction step keeps cache and engine agreeing with the map of acknowledged inserts, unless it loses a newest record, reads past a newer one in flight, or inserts with an old time. |
| EndToEnd.StoreAnswerIsLatestIff | Memoria/API.c:51-87 | A SELECT that misses the cache gets the record of the last acknowledged insert exactly when no newer record of the key is hidden in flight. |
| EndToEnd.SelectIsLatest | Memoria/API.c:28-87 | Under that condition when it misses, and always when it does not, a SELECT returns the last acknowledged insert of its key, whatever swaps, merges and renames come between its two reads. |
| EndToEnd.RunSelectsLatest | Memoria/API.c:28-107 | Both in every run of such steps from empty tables. |
| EndToEnd.JournalHandsOver | Memoria/MainMemory.c:126-138 | After a journal LFS alone answers what the cache would have answered, under the same condition and only then. |
| StaleRead.StaleIsServed | Memoria/API.c:51-87 | A run in which a SELECT caches a value whose successor is in flight: after the dump, with nothing in flight, clients still get the old one. |
| StaleRead.TieIsServed | Memoria/API.c:89-107 | A run in which a key is inserted twice at the same time, and a SELECT after the journals gets the first value. |
| Client.Process.Insert | Memoria/API.c:89-107 | A value that is too long changes nothing.  Any other is acknowledged exactly when its page is in the cache or there is room, and the map then has it: the insert step of the end-to-end machine. |
| Client.Process.Select | Memoria/API.c:28-87 | A hit answers from the cache and only marks the page as used.  A miss answers with the newest record the engine shows: nothing for none; else the value, loaded as a clean page exactly when there is room, and `MemoryFull` exactly when there is not.  These are the select steps of the machine; the answer is the map's value, and the map survives, unless a newer one is hidden in flight. |
| Client.Process.JournalRegister | Memoria/API.c:214-256 | Sends one dirty page's current table, key, value and timestamp to LFS: the emit step of the machine. |
| Client.Process.Journal | Memoria/API.c:258-264 | Sends each dirty page once and nothing else, leaves the cache empty and the map as it was: a run of journal steps of the machine. |
| Client.EmittedOnce | Memoria/API.c:214-264 | After a journal the memtable of each table has grown by one record for each of its dirty pages, with that page's timestamp, key and value, and by no other; nothing else of the engine has changed. |
| Client.Process.InsertRetrying | Kernel/Commands.c:150-188 | A value that is too long changes nothing.  With the page in the cache, or room, the insert is acknowledged at its first time and LFS receives nothing.  Otherwise there is exactly one journal, LFS receives exactly the dirty pages, and the value, acknowledged at the later time, is the only page. |
| Client.Process.EngineSwap | LFS/Memtable.c:171-177 | Each table's memtable is in flight and a new one empty; clients do not notice. |
| Client.Process.EngineRename | LFS/Compactador.c:98-107 | The rename step of the table, exactly when it has a dump; clients do not notice. |
| Client.Process.EngineMergeBin | LFS/Compactador.c:111-124 | The merge step of the next partition; clients do not notice. |
| Client.Process.EngineMergeTmpc | LFS/Compactador.c:295-308 | The merge step of a renamed file; clients do not notice. |
| Client.Process.EngineDump | LFS/Memtable.c:103-151 | The dump step with the outcome that the free blocks decide; clients do not notice one for which there are blocks beforehand. |
| Client.Process.EngineCommit | LFS/Compactador.c:128-153 | The commit step; clients do not notice one for which there are blocks beforehand. |
| MergeSort.SortSorts | Shared/libcommons/list.c:401-451 | The merge sort sorts, for any strict weak order. |
| MergeSort.SortIsStable | Shared/libcommons/list.c:415-449 | It keeps the order of nodes the order does not tell apart. |
| MergeSort.SortPermutes | Shared/libcommons/list.c:401-451 | It returns the same nodes. |
| MergeSort.SortedIsUnique | Shared/libcommons/list.c:300-308 | Being sorted and stable determines the result. |
| LinkedLists.List.MoveNode | Shared/libcommons/list.c:421-435 | Three relinked pointers move the node before the left run; head and tail follow. |
| LinkedLists.List.MergeRuns | Shared/libcommons/list.c:415-450 | The merging loop turns two consecutive runs into the merged one by relinking. |
| LinkedLists.List.SortAux | Shared/libcommons/list.c:401-451 | Sorts a stretch of the chain in place and ends, leaving the rest of the chain alone. |
| LinkedLists.List.SortInPlace | Shared/libcommons/list.c:300-308 | The list has the same nodes in sorted order, with head, tail and count right. |
| LinkedLists.List.GetElement | Shared/libcommons/list.c:367-377 | The node at a position, null past the end. |
| LinkedLists.List.Add | Shared/libcommons/list.c:36-52 | Appends one new node. |
| LinkedLists.List.Remove | Shared/libcommons/list.c:156-178 | Unlinks exactly the node at the position and returns its data. |
| HashMaps.HashMap.Put | Shared/libcommons/hashmap.c:66-97 | The map with the key set to the value, rehash included; the table doubles exactly when a new key takes the last unused bucket. |
| HashMaps.HashMap.Get | Shared/libcommons/hashmap.c:99-103 | The map's value, null when absent. |
| HashMaps.HashMap.Remove | Shared/libcommons/hashmap.c:105-112 | The map without the key; the count follows unless the value was null. |
| HashMaps.HashMap.Resize | Shared/libcommons/hashmap.c:186-227 | Every element ends in the bucket of its hash modulo the new size, the map is the same and the number of buckets in use is right. |
| HashMaps.HashMap.Iterate | Shared/libcommons/hashmap.c:121-132 | Visits each entry exactly once. |
| HashMaps.HashMap.Size | Shared/libcommons/hashmap.c:167-170 | The count is the size of the map exactly when no null value was removed. |
| Runner.StepInv | Kernel/Runner.c:111-165 | Every step keeps: a live script is in the queue or at one worker, only once; its executed lines are those before its pointer, all successful; an ended one ran all lines or up to its first failing line; no dispatch exceeds a positive quantum; dispatch order is queue order. |
| Runner.StepDecreases | Kernel/Runner.c:131-160 | Every step but a submission leaves less work. |
| Runner.RunsAreBounded | Kernel/Runner.c:111-165 | Without new scripts a run is no longer than the work it started with. |
| Runner.QuietMeansEnded | Kernel/Runner.c:149-157 | When no worker can do anything, every script has ended well. |
| Runner.Kernel.AddScript | Kernel/Runner.c:77-83 | A new script goes to the end of the queue with all its lines to run; workers, logs and endings are as before. |
| Runner.Kernel.WorkerTurn | Kernel/Runner.c:111-165 | An undisturbed turn of the first script runs its next lines, as many as the quantum allows and none after one that fails, and logs each with its result.  The script then has failed if its last line did, else it is completed if there are no more lines, else it is last in the queue.  No other script is concerned. |
| Gossip.KnownIff | Memoria/Gossip.c:168-281 | A memory is in another's table exactly when a time-ordered chain of handshakes leads from it there. |
| Gossip.Memory.HandleHandshake | Memoria/Handlers.c:28-92 | A stranger changes nothing and gets no answer.  The kernel makes the receiver enter itself with its own address.  From a memory, the last entry of an id in its list gives its address; without one the caller has the caller's address, the receiver its own, and every other id what it had.  The answer is the whole table. |
| Gossip.PutAllLearns | Memoria/Handlers.c:70-87 | After a list every id of it has an address of the list, and the others keep theirs. |
| Gossip.PutAllFinds | Memoria/Handlers.c:70-87 | The last entry of an id in a list gives its address; an id without an entry keeps what it had. |
| Gossip.Memory.GossipWith | Memoria/Gossip.c:168-281 | The table learns the answer's entries except blocked ids, and the discoveries all of them, the last entry of an id or an address winning; a known peer that does not answer is removed and blocked. |
| Gossip.Memory.GossipRound | Memoria/Gossip.c:315-351 | Exactly the known ids that fail are blocked; the table holds what it had and what any peer listed, without the blocked ids; peers are the old ones, the addresses of the table and every address listed. |
| Gossip.Exchange | Memoria/Gossip.c:198-281 | After a handshake the receiver has its table with both addresses and then the caller's table over it, and the caller has its own with that over it. |
| Gossip.Shake | Memoria/Gossip.c:198-281 | Both sides of a handshake that nothing disturbs end with the tables that the chain theorem is about. |

## Left out

- Lfs.StorageEngine.Insert: the value has to be non-empty and free of `;` and newline, because otherwise the files do not hold it (Codec.RoundTrip has the exact condition); the program accepts any value.
- Client.Process.Insert: the table has to exist and the value has to be one that the files hold; the program accepts inserts into tables that LFS does not have and loses them at the journal, with a warning.
- Client.Process.InsertRetrying: the same, because it is made of such inserts.
- Lfs.StorageEngine.DumpTable: blocks that other tables ask for or free in the middle of it, as the hypotheses say; WriteDump has the case that they ask for some.
- Lfs.StorageEngine.CompactCommit: the same; RewritePartitions has the case that they ask for some.
- Lfs.StorageEngine.Drop: not during a dump of the table, whose records would then be dumped into a directory that is gone.
- Codec.GetBiggestTimestamp: a line with fewer than two fields, or of the wanted key and without a value, makes the program read past its field vector, so contents with one are excluded; signs and leading blanks that `strtoull` accepts are not modelled.
- Gossip.Memory.GossipRound: handshakes that other memories start in the middle of the round can put a blocked id back; the model has the worker's own writes only.
- HashMaps.HashMap.Put: chains are sequences, so the relinking of chain nodes is not modelled; the hash function is a parameter, and unsigned overflow of the sizes is not modelled.
- The cut of values at `TAMANIO_VALUE`: memories refuse longer values, so the cut never happens to theirs.
- Overflow of the 64-bit use counter, of the 32-bit count of lines in one turn, and of sizes kept in `size_t`.
- The dead branch of the list sort (`!after`), which the proof shows is never reached.
- Sockets, packets, threads, timers, signals, logs, delays, the console and configuration files; a clock reading is an argument.
- Directories, `mmap`, `flock` and `stat`: a volume is a map from paths to size and blocks, and a file deletion is one step.
- Crashes in the middle of a compaction, allocation failures and the shutdown of threads.
- The journal that the kernel sends when a SELECT found the memory full is `Client.Process.Journal`; that it sends one then is not modelled.
- DESCRIBE, table metadata beyond the partition count, criteria and metrics: they would only add easy members.
- Other functions of `list.c`, `string.c` and `vector.c`: sequences stand for them.
