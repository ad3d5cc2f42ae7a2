# What a backup can be trusted to give back

The program backs up Windows directories in two ways. To a Proxmox Backup Server it sends a PXAR
archive, cut into chunks that are stored once and listed by a dynamic index; files that did not
change are replayed from a cache of the chunks they ended up in. To a file share it sends ZIP
archives, a full one and increments, each with a manifest. Between the two stands a durable queue
of pending backups. This project models the parts that decide whether a backup can be restored byte
for byte, and proves that it can, or exactly when it cannot.

The model follows the program's own form. Where the program keeps state in a struct and loops over
it, there is a class with the same fields and a method with the same loop, proved against a
function; what the program promises is then proved of the functions, by lemmas, and of the objects,
by invariants that every method keeps.

## The components

**PXAR streams** (`Pxar*.dfy`, `Goodbye*.dfy`, `Paths.dfy`). `PxarFormat` encodes trees as archives.
`PxarStreamSpec` is the push parser step by step, `PxarStream` the parser object itself. Splitting
(`PxarSplit`), single blocks (`PxarTokens`), rows of blocks (`PxarRows`) and trees (`PxarTrees`) lead
to the two main theorems: the index recorder is exact, and so is selective restore with subtree
pruning. `PxarRead`, `GoodbyeSearch` and `PxarLookupTheorem` do the same for random access through
goodbye tables, `GoodbyeTables` shows that every tree has such tables, `GoodbyeBst` that the writer's
own layout is the right one, and `PxarAgreement` that the two routes agree. `PxarServed` says how far
a selective restore has to read, `PxarPassIndex` what index it leaves behind, and `PxarRestore` is the
whole call.

**Chunks** (`Chunk*.dfy`, `Didx.dfy`, `UploadPipeline.dfy`). The chunk stream under an arbitrary
chunker, the index file, reassembly in both forms, reading through a partial set of chunks, spans of
files, and the concurrent uploads as a state machine over all interleavings.

**Fast incremental backups** (`FastIncremental.dfy`, `RecordCuts.dfy`, `PxarAdvance.dfy`,
`BackupSession.dfy`, `WriterCuts.dfy`, `PxarWriter.dfy`, `BackupRuns.dfy`, `ReplayedRecords.dfy`,
`CacheBootstrap.dfy`, `BackupSite.dfy`). What the cache accepts is what was recorded. `PxarWriter` says
what the archive writer puts out for a tree and which tables it computes, `BackupRuns` is the writer
with its callbacks, flush by flush. Over any history of runs, aborted ones and rebuilt caches included,
every backup ever closed restores to the stream that was stored; that stream is the archive of the
source, with tables that serve, exactly if no file of it was replayed.

**ZIP chains** (`Zip*.dfy`). One run from decision to saved index, the view the restore side builds
by replaying the chain, and the theorem over all histories, failed uploads and lost files included.

**Catalog** (`Varint.dfy`, `Catalog*.dfy`). Variable-length integers, directory tables, the walk and
the lookup of paths, against trees; `CatalogWriter` shows that every tree has such a catalog, and
`CatalogWalks` which catalogs the walk comes back from.

**Queue, selections, schedule** (`BackupQueue.dfy`, `QueueRuns.dfy`, `BatchSelection.dfy`,
`ScheduleSlots.dfy`). Claim and recovery as separate durable writes with a crash possible between any
two; overlapping selections; start slots.

## Where the code does less than one would expect

These are properties of the code as it is. Each is proved as a condition or shown by an input.

- A stream piece that ends between a file's entry and the end of its payload header makes the next
  feed fail: the entry is consumed before the header is asked for, and the state stays "in directory"
  (`internal/pbsbackup/pxar_stream_restore.go:276`, `:309`, `:330`). `RecorderIsExact` gives this as an if-and-only-if.
- A block of length zero keeps the feed loop spinning (`:244-253`); `ProgressExceptOnZeroLength` and
  `ZeroLengthRepeats` say exactly when.
- A file's record covers its headers and its data, because the writer marks the start before it builds
  the headers (`third_party/proxmoxbackupclient_go-master/pbscommon/pxar.go:642-644`). Replaying emits
  the headers and then the record's chunks, so the headers come twice (`HeadersComeTwice`): the stream
  is the archive exactly if nothing is replayed (`StreamIsArchive`), the recorder falls behind the
  stream by just those headers (`CountersAgree`, `StreamIsWritten`), and the file index leads astray
  (`SecondRunRepeats`, `TwoRunsDiffer`). This takes chunks that end exactly where a file starts and
  where it ends (`ReplayableAtChunkEnds`).
- The writer's position does not move for a replayed file, so the goodbye tables of such a run are wrong
  even where the stream is not (`TablesServe`).
- A subdirectory that cannot be read is listed at the position of the next table, which may be its
  parent's own (`pxar.go:329-331`, `:436-443`): walking such a catalog never ends
  (`UnreadableNeverReturns`); `ComesBackExactly` says of which catalogs that is true.
- Pruning always drops the last chunk (`internal/pbsbackup/pxar_index.go:283-286`); `RestoreIndexed` shows that fetching again in
  the loop makes up for it.
- Refreshing the cache with an mtime of exactly zero makes records acceptable that were not
  (`ZeroMtimeForgets`); `EnrichedForLaterStat` says for which records.
- A cache rebuilt from the server is never replayed from: its records span 16 bytes more than their
  length says (`BootstrappedIsRefused`). The rebuilding itself fails if a chunk ends inside a file's
  headers (`Bootstrap`).
- A ZIP run looks only at the full archive before it adds to a chain. Once an archive or manifest in
  the middle is lost, runs go on reporting success and nothing they make can be put together
  (`CompleteAfter`).
- Giving a queued item up, or back after meeting a held lock, clears its marker first; an item is lost
  if the process dies right then (`GiveUp`, `GiveBack`).
- A snapshot view leaves out entries with unsafe names although the index lists them; `AllPathsShown`.
- A catalog directory whose path begins or ends with white space is not reached by its own path;
  `DirectoryIsListed`.
- A completed claim whose item counts as the same as one queued behind it is dropped by recovery;
  `CrashedClaimRecovers`.

## What is assumed

SHA-256 is free of collisions (as an ideal function; `IdealHashExists`). The chunker may cut anywhere.
The name hash is any function; its values differ on siblings where that is needed. For the two caches:
path, size and mtime in whole seconds settle the bytes of a file, and no file has the mtime zero. A file
has the size its stat gave when it is read, and its headers fit into one slice of the writer's buffer
(256 KiB). A durable file is replaced in one step. The items put into the queue are different under the code's own
identity test. Archive names are new, and the paths a ZIP run keeps differ in
more than letter case. Letter case and white space are those of ASCII.

## Model

| member | source | states |
|---|---|---|
| `PxarStream.PxarStreamParser.FeedChunk` | internal/pbsbackup/pxar_stream_restore.go:151-176 | The feed loop over the carry returns, leaves and records exactly what the specification's `Feed` says for this state and piece, with panics and the endless loop told apart from errors. |
| `PxarStream.PxarStreamParser.TakeStep` | internal/pbsbackup/pxar_stream_restore.go:188-201 | One step of the four-state machine is the specification's step: same outcome, same new state, nothing else changed. |
| `PxarStream.PxarStreamParser.StepAtRoot` | internal/pbsbackup/pxar_stream_restore.go:203-221 | The root entry is consumed only when whole, an ENTRY and a directory; each failure is the source's. |
| `PxarStream.PxarStreamParser.StepAtGoodbye` | internal/pbsbackup/pxar_stream_restore.go:240-254 | A goodbye block is skipped by its length and closes one directory. |
| `PxarStream.PxarStreamParser.StepAtFilename` | internal/pbsbackup/pxar_stream_restore.go:256-282 | Name and entry are checked and consumed together, before anything of the payload is looked at. |
| `PxarStream.PxarStreamParser.Enter` | internal/pbsbackup/pxar_stream_restore.go:283-306 | A directory is pushed with its skip flag; a file is looked up among the open targets and its payload begun or passed over. |
| `PxarStream.PxarStreamParser.StepAtPayload` | internal/pbsbackup/pxar_stream_restore.go:405-441 | Payload bytes are taken as far as they reach, and the payload is closed when none are left. |
| `PxarStream.PxarStreamParser.MarkRestored` | internal/pbsbackup/pxar_stream_restore.go:485-500 | A finished target is restored once, its keys leave the target map and the counters move by one. |
| `PxarStream.PxarStreamParser.FindTarget` | internal/pbsbackup/pxar_stream_restore.go:140-149 | The first of the path's keys with an open target decides. |
| `PxarStream.PxarStreamParser.FinishIndexFileEntry` | internal/pbsbackup/pxar_stream_restore.go:359-376 | The pending entry gets its start and end in the index and is closed; without one nothing changes. |
| `PxarStream.PxarStreamParser.Finish` | internal/pbsbackup/pxar_stream_restore.go:178-186 | The end of the stream succeeds exactly when no target is pending, and reports how many were restored. |
| `PxarStream.PxarStreamParser.Advance` | internal/pbsbackup/pxar_stream_restore.go:379-390 | The rest of a skipped payload is taken as read, with the index entry finished. |
| `PxarStream.PxarStreamParser.FeedHeadersThenSkipPayload` | internal/pbsbackup/pxar_index.go:166-177 | Headers are fed as data, then the payload is advanced over. |
| `PxarSplit.DrainSplit` | internal/pbsbackup/pxar_stream_restore.go:151-176 | Cutting a feed anywhere it can rest changes nothing: feeding the second piece to what the first left behind equals feeding both at once. |
| `PxarSplit.DrainSplitDone` | internal/pbsbackup/pxar_stream_restore.go:151-176 | A feed that ended the restore ends it again on any longer input, the surplus staying in the carry. |
| `PxarSplit.ProgressExceptOnZeroLength` | internal/pbsbackup/pxar_stream_restore.go:240-306 | A step that moves makes progress by (carry length, state rank) exactly when the block it took has a length other than zero. |
| `PxarSplit.ZeroLengthRepeats` | internal/pbsbackup/pxar_stream_restore.go:244-253 | On a block of length zero the loop finds the same bytes for ever; this is where termination fails. |
| `PxarTokens.DrainToken` | internal/pbsbackup/pxar_stream_restore.go:203-376 | From any directory state a whole block is consumed with exactly its effect, whatever follows. |
| `PxarTokens.DrainPart` | internal/pbsbackup/pxar_stream_restore.go:256-341 | A block cut short waits, except in the 16 bytes behind a file's entry, where the entry is gone and the state is still the directory. |
| `PxarRows.DrainRow` | internal/pbsbackup/pxar_stream_restore.go:151-176 | Any prefix of a row of blocks ends quiet, torn or early, and torn exactly in a header window. |
| `PxarRows.FeedFrom` | internal/pbsbackup/pxar_stream_restore.go:151-176 | Feeding a row of blocks in any pieces fails if and only if some piece ends in a header window before all targets are served, and is done if and only if they are served by its end. |
| `PxarRows.TornThenFails` | internal/pbsbackup/pxar_stream_restore.go:223-238 | After a torn feed the next bytes are always rejected. |
| `PxarFormat.ArchiveFileIsWhereItSays` | internal/pbsbackup/pxar_index.go:20-36 | At each listed position of the encoded archive stand the PAYLOAD header and then exactly that file's data; entry start, offset and entry end are consistent. |
| `PxarTrees.WindowsOfArchive` | internal/pbsbackup/pxar_stream_restore.go:308-341 | A cut lies in a window of the block row exactly when it lies between some file's entry and the end of its payload header. |
| `PxarIndexTheorem.RecorderIsExact` | internal/pbsbackup/pxar_stream_restore.go:151-176 | For every well-formed archive and every way of cutting it: feeding fails if and only if some piece ends in a file's header window; otherwise the whole stream is consumed and the index is that of exactly the archive's files. |
| `PxarIndexTheorem.IndexAnswers` | internal/pbsbackup/pxar_index.go:45-58 | With distinct keys, looking up a file's path answers with that file's position. |
| `PxarIndexTheorem.LookupIsAFile` | internal/pbsbackup/pxar_index.go:51-58 | A lookup succeeds if and only if some file has a key of the path, and the position is that of such a file. |
| `PxarIndexTheorem.IndexHoldsNothingElse` | internal/pbsbackup/pxar_index.go:45-49 | No key is in the index unless a file put it there, and every file's keys are. |
| `PxarRestoreTheorem.IrrelevantIsUnwanted` | internal/pbsbackup/pxar_stream_restore.go:127-138 | A directory pruned as irrelevant holds no file that any open target asks for. |
| `PxarRestoreTheorem.RestoreArchive` | internal/pbsbackup/pxar_stream_restore.go:256-357 | With pruning, a whole archive serves the targets as if every file had been compared with them. |
| `PxarRestoreExact.EarlyStopLosesNothing` | internal/pbsbackup/pxar_stream_restore.go:151-176 | Once nothing is pending, the rest of the stream would not have changed what was restored. |
| `PxarServed.PrefixOfArchive` | internal/pbsbackup/pxar_stream_restore.go:256-500 | After any prefix of the archive the targets stand as if exactly the files that end in it had been offered to them. |
| `PxarRestoreExact.RestoreIsExact` | internal/pbsbackup/pxar_stream_restore.go:151-186 | For every archive, request and cut: feeding fails if and only if some piece ends in a file's header window while a target is still without a match among the files that end before; otherwise each target receives the data of the first file matching it, targets without a match receive nothing, and nothing is pending exactly when every target has a match. |
| `PxarRestore.StreamRestore` | internal/pbsbackup/pxar_stream_restore.go:573-674 | The loop fetches, checks and feeds chunk by chunk; a chunk that is missing, or does not end where its record says, ends it unless all is restored before; else it answers as the specified feed does, and hands over the index it recorded. |
| `PxarRestore.StreamRestoreIsExact` | internal/pbsbackup/pxar_stream_restore.go:573-674 | Where the server has all chunks of an archive, the whole call fails, completes or reports a partial restore, each under its exact condition, delivers each target its first match and nothing else, and saves an index that leads to files of the archive only. |
| `PxarPassIndex.PassIndexIsExact` | internal/pbsbackup/pxar_stream_restore.go:392-403 | Whatever the cut, each entry of the index recorded on the way is position and size of a file of its key; without an early stop it is the index of one pass over all files, with an early stop that over the files up to there. |
| `PxarRestore.SavedPositionsHold` | internal/pbsbackup/pxar_stream_restore.go:655-671 | At a position of the saved index the archive has the block of a file of that key, of the size the index says. |
| `Paths.KeyOfChild` | internal/pbsbackup/pxar_stream_restore.go:99-108 | The key of a path starts with the key of its directory and a backslash, which is what the pruning compares. |
| `GoodbyeSearch.GoodbyeBstFind` | internal/pbsbackup/pxar_goodbye.go:56-74 | The loop over the array tree terminates and answers as the recursive search. |
| `GoodbyeSearch.SearchIsExact` | internal/pbsbackup/pxar_goodbye.go:56-74 | In a table laid out as a search tree a hash is found if and only if it is in the table, and at its own row. |
| `PxarRead.SkipDirectoryContents` | internal/pbsbackup/pxar_read.go:106-139 | The recursive loop skips as its specification. |
| `PxarRead.ScanToGoodbye` | internal/pbsbackup/pxar_goodbye.go:76-108 | The scan loop stops where its specification does, with the same errors. |
| `PxarRead.ParseGoodbyeBlock` | internal/pbsbackup/pxar_goodbye.go:29-54 | The table loop reads the rows in front of the tail marker, or fails as the source does. |
| `PxarLookupTheorem.SkipAt` | internal/pbsbackup/pxar_read.go:106-139 | Skipping from the start of an encoded directory ends exactly behind its goodbye block. |
| `PxarLookupTheorem.LookupAt` | internal/pbsbackup/pxar_goodbye.go:110-132 | Looking a name up in an encoded directory gives the start of the child with that name hash, or "not found" if there is none. |
| `PxarLookupTheorem.RandomAccessIsExact` | internal/pbsbackup/pxar_goodbye.go:134-177 | For every archive with correct goodbye tables and every path, present or absent: random access answers exactly what the tree says, payload or error. |
| `GoodbyeTables.LaidIsSearchTree` | internal/pbsbackup/pxar_goodbye.go:56-74 | Items in ascending order of hash, laid out in the array, make a search tree of just these items. |
| `GoodbyeTables.EveryTreeCanBeRead` | internal/pbsbackup/pxar_goodbye.go:110-177 | Every tree with distinct small hashes can be written with tables the lookup can rely on, and random access then answers for every path what the tree says. |
| `GoodbyeBst.MakeBstInner` | third_party/proxmoxbackupclient_go-master/pbscommon/pxar.go:129-147 | The recursion that halves the sorted items by powers of two fills just the positions below `i`, each with the item an in-order walk of the array tree has there. |
| `GoodbyeBst.MakeBst` | third_party/proxmoxbackupclient_go-master/pbscommon/pxar.go:149-152 | The table it makes of sorted items is the one layout the lookup needs. |
| `GoodbyeBst.SortByHash` | third_party/proxmoxbackupclient_go-master/pbscommon/pxar.go:469-471 | The rows come out in ascending order of hash, whatever order they were found in. |
| `PxarWriter.ArchiveCanBeRead` | third_party/proxmoxbackupclient_go-master/pbscommon/pxar.go:318-527 | The tables the writer itself computes, from positions counted while writing, are right when nothing is replayed: random access then answers for every path what the tree says. |
| `PxarWriter.TablesServe` | third_party/proxmoxbackupclient_go-master/pbscommon/pxar.go:318-527 | The tables a run writes are right if and only if no file of it was replayed; the position is not moved for a replayed file. |
| `PxarAgreement.ListedFilesAreExtracted` | internal/pbsbackup/pxar_read.go:24-34 | Every file the stream index lists is extracted whole by its listed path. |
| `PxarAgreement.ExtractedIsListed` | internal/pbsbackup/pxar_goodbye.go:134-177 | Whatever the descent by parts resolves to is the data of a file listed under the joined parts, letter case aside. |
| `PxarAgreement.OnlyListedIsExtracted` | internal/pbsbackup/pxar_read.go:24-34 | For every path string: what is extracted from the encoded archive is the data of a listed file of that path, letter case and a final slash aside; so absent paths and directories give errors. |
| `ChunkViews.ChunkIndicesForRange` | internal/pbsbackup/pxar_index.go:179-194 | Exactly the chunks that overlap the range are named, in order. |
| `ChunkViews.ChunkView.Locate` | internal/pbsbackup/pxar_index.go:258-267 | The chunk holding an offset is found if and only if the offset is in the stream. |
| `ChunkViews.ChunkView.ReadAt` | internal/pbsbackup/pxar_index.go:224-256 | A read answers with the stream's own bytes, and answers whenever the range is in the stream and its chunks are loaded. |
| `ChunkViews.ChunkView.PruneBefore` | internal/pbsbackup/pxar_index.go:281-292 | What stays are the chunks ending after the bound, the last chunk never among them. |
| `ChunkViews.ChunkView.ExtractPayload` | internal/pbsbackup/pxar_index.go:305-319 | Where a file's block stands and its chunks are loaded, exactly the file's data comes back. |
| `ChunkViews.ListedPositionsHold` | internal/pbsbackup/pxar_index.go:305-319 | The positions an archive lists for its files are the correct positions the indexed restore needs. |
| `ChunkViews.RestoreIndexed` | internal/pbsbackup/pxar_index.go:412-474 | For every list of correct positions, whatever was pruned in between, each payload comes back as the file's data; the only possible failure is a chunk the server does not have. |
| `ChunkStream.IdealHashExists` | internal/pbsbackup/backup.go:87-114 | The idealised digest function assumed throughout can exist. |
| `ChunkStream.ChunkState.constructor` | internal/pbsbackup/backup.go:51-67 | An empty stream with the chunks the server told of. |
| `ChunkStream.ChunkState.CommitChunk` | internal/pbsbackup/backup.go:87-114 | One chunk enters assignments, offsets and checksum together; an unknown one is uploaded under its digest, and the index still describes the stream. |
| `ChunkStream.ChunkState.FlushPendingChunk` | internal/pbsbackup/backup.go:116-125 | Pending bytes become a chunk; the stream is unchanged. |
| `ChunkStream.ChunkState.HandleData` | internal/pbsbackup/backup.go:153-180 | Wherever the chunker cuts, the stream grows by exactly the bytes given. |
| `ChunkStream.ChunkState.ReuseChunks` | internal/pbsbackup/backup.go:127-151 | Replaying cached chunks extends the stream by their contents; it fails exactly on an entry that is no digest. |
| `ChunkStream.ChunkState.Eof` | internal/pbsbackup/backup.go:189-214 | The index sent in batches is the assignments with their start offsets, and its size is the length of the stream. |
| `ChunkLayout.ChunkIsStretch` | internal/pbsbackup/didx.go:20-23 | Each chunk is the stretch of the stream between its own and the previous end offset. |
| `ChunkLayout.OffsetsGrow` | internal/pbsbackup/backup.go:87-114 | Offsets strictly increase. |
| `Didx.ParseDidxRecords` | internal/pbsbackup/didx.go:25-44 | A file is parsed exactly when it is long enough and has the magic; the records are the rows in ascending order of offset. |
| `Didx.SortedIsUnique` | internal/pbsbackup/didx.go:40-42 | Strictly ascending records have one ascending arrangement, so the unstable sort cannot matter. |
| `Didx.RowsReadBack` | internal/pbsbackup/didx.go:33-39 | Rows written as offset and digest are read back as they were. |
| `Didx.ReassembleFromRecords` | internal/pbsbackup/didx.go:69-95 | Succeeds exactly when every chunk is there and ends where its record says, and then returns the chunks joined. |
| `Didx.DownloadChunksParallel` | internal/pbsbackup/chunk_download.go:17-85 | For any list of indices and any order of arrival: exactly the asked-for chunks, or an error exactly if an index is out of range or a chunk is missing. |
| `Didx.ReassembleProgress` | internal/pbsbackup/restore_stream.go:75-201 | With nobody watching it fails exactly where the other form does and returns the same stream; a caller that looks at the stream after every chunk ends or fails it after the first chunk it says so of, and gets all of it only if it never does. |
| `Didx.ReassembleDynamicBytes` | internal/pbsbackup/didx.go:54-66 | A catalog stands for itself; an index of a described stream gives back that stream. |
| `ChunkSpans.ChunkSpansForRange` | internal/pbsbackup/chunk_spans.go:25-59 | The loop over end offsets gives the cut of the range. |
| `ChunkSpans.ChunkSpansFromAssignments` | internal/pbsbackup/chunk_spans.go:61-92 | So does the loop over start offsets. |
| `ChunkSpans.BothFormsAgree` | internal/pbsbackup/chunk_spans.go:25-92 | Both forms describe the same stretches, so they return the same list. |
| `ChunkSpans.RangeIsTiled` | internal/pbsbackup/chunk_spans.go:25-92 | For every chunking and range the spans name the chunks the range meets, each once and in order; each has the length of its chunk's slice and is partial exactly when the slice is not the whole chunk; the slices joined are the range. |
| `ChunkSpans.WholeSpansHold` | internal/pbsbackup/chunk_spans.go:13-23 | If no span is partial, the named chunks joined are exactly the bytes of the range. |
| `FastIncremental.FastIncremental.constructor` | internal/pbsbackup/fast_incremental.go:26-51 | A forced full backup forgets the cache; reuse needs a non-empty, ready cache. |
| `FastIncremental.FastIncremental.ReuseChunkSpans` | internal/pbsbackup/fast_incremental.go:66-96 | Chunks are offered exactly for an accepted record of whole chunks, and only then the record is carried over. |
| `FastIncremental.FastIncremental.RecordFile` | internal/pbsbackup/fast_incremental.go:105-127 | A file is recorded once, and not without spans. |
| `FastIncremental.FastIncremental.Save` | internal/pbsbackup/fast_incremental.go:138-153 | A run that recorded nothing leaves the cache file alone. |
| `FastIncremental.RecordedIsSound` | internal/pbsbackup/backup.go:457-466 | A record taken while its last bytes were still uncommitted can be accepted only if its spans cover the whole marked range, and then they hold exactly its bytes. |
| `RecordCuts.ReplayableAtChunkEnds` | internal/pbsbackup/backup.go:457-466 | A record can be replayed if and only if by the time it is made a chunk ends where the marked range starts and one where it ends. |
| `FastIncremental.AcceptedIsSound` | internal/pbsbackup/pbs_fileindex.go:116-151 | An accepted record replays exactly the bytes it was recorded for, and may be passed on to the next run. |
| `FastIncremental.EnrichIndexFromDisk` | internal/pbsbackup/pbs_index_enrich.go:13-63 | The walk's loop refreshes the records of the walked files and no others. |
| `FastIncremental.EnrichedForSameStat` | internal/pbsbackup/pbs_index_enrich.go:45-59 | For the stat it was refreshed with, a record is acceptable afterwards if and only if it was before and the times agree. |
| `FastIncremental.EnrichedForLaterStat` | internal/pbsbackup/pbs_index_enrich.go:45-59 | Refreshing makes no stat acceptable that was not, if and only if the disk's mtime is not zero, or the record's is zero or a second or more away from it, or the sizes differ, or the spans do not cover the file. |
| `FastIncremental.ZeroMtimeForgets` | internal/pbsbackup/pbs_fileindex.go:127-129 | A record and a stat for which an mtime of zero does: zero is read as "unknown" from then on. |
| `FastIncremental.EnrichKeepsSound` | internal/pbsbackup/pbs_index_enrich.go:12-63 | A refreshed cache still replays only what was recorded. |
| `PxarAdvance.DrainConserves` | internal/pbsbackup/pxar_stream_restore.go:151-176 | Bytes consumed and bytes carried add up to the bytes fed. |
| `PxarAdvance.AdvanceIsFeeding` | internal/pbsbackup/pxar_stream_restore.go:379-390 | Advancing over a payload leaves the parser exactly as feeding the payload would. |
| `BackupSession.Session.CountersAgree` | internal/pbsbackup/backup.go:402-479 | The byte counter is chunk position plus pending chunk, and the recorder is where the archive it follows is; the two agree if and only if the stream is as long as that archive. |
| `BackupSession.Session.WriteCB` | internal/pbsbackup/backup.go:467-479 | Written bytes reach recorder and chunk stream alike and keep the session in step wherever the recorder can rest. |
| `BackupSession.Session.OnPxarChunksReuse` | internal/pbsbackup/backup.go:406-435 | The stream gets the headers and whatever the cached chunks hold; the recorder takes as many bytes for granted as the headers announce, whatever was replayed. |
| `BackupSession.Session.OnFilePxarBegin` | internal/pbsbackup/backup.go:454-456 | Marks where the file's bytes start; the writer calls it before the file's headers. |
| `BackupSession.Session.OnFilePxarEnd` | internal/pbsbackup/backup.go:457-466 | Either nothing is recorded or exactly this file, with its stat and the bytes since the mark; the record can be replayed exactly if chunks end at both marks; and the cache stays sound. |
| `WriterCuts.RestAt` | internal/pbsbackup/pxar_stream_restore.go:151-176 | The recorder can rest behind any piece that ends anywhere in an archive except in the header window of a file. |
| `BackupRuns.Writer.Flush` | third_party/proxmoxbackupclient_go-master/pbscommon/pxar.go:233-246 | The buffer goes out in slices, and position, stream and recorder move by all of it. |
| `BackupRuns.Writer.ReadFile` | third_party/proxmoxbackupclient_go-master/pbscommon/pxar.go:642-724 | A file that is read adds its block to the stream and moves the position; the mark stands before its headers, so what is recorded of it is headers and data. |
| `BackupRuns.Writer.ReplayFile` | third_party/proxmoxbackupclient_go-master/pbscommon/pxar.go:559-584 | A file that is replayed adds its headers and the cached chunks to the stream; recorder and position do not see what those hold. |
| `BackupRuns.Writer.WriteFile` | third_party/proxmoxbackupclient_go-master/pbscommon/pxar.go:588-724 | A file is replayed if and only if its record is accepted and its spans are whole chunks, and adds to stream, position and recorded archive what that comes to. |
| `BackupRuns.Writer.WriteTop` | third_party/proxmoxbackupclient_go-master/pbscommon/pxar.go:318-527 | Over any tree, with any mixture of replaying and reading: the stream is that of the specification, the recorder has followed the archive with the tables the writer gives it, and holds exactly its index. |
| `PxarWriter.StreamIsWritten` | third_party/proxmoxbackupclient_go-master/pbscommon/pxar.go:559-724 | The stream is the archive the recorder followed if and only if all that is replayed is as long as the file itself; otherwise it is longer, by exactly as much as the replayed records are. |
| `PxarWriter.StreamIsArchive` | third_party/proxmoxbackupclient_go-master/pbscommon/pxar.go:559-724 | The stream is the archive of the source if and only if no file is replayed. |
| `ReplayedRecords.HeadersComeTwice` | third_party/proxmoxbackupclient_go-master/pbscommon/pxar.go:568-584 | Records as the writer's own marks make them put the headers of every replayed file into the stream once more than the archive has them. |
| `ReplayedRecords.SecondRunRepeats` | third_party/proxmoxbackupclient_go-master/pbscommon/pxar.go:559-724 | If the first run's chunks end where the one file starts and where it ends, the second run replays it; the stream is longer by the headers, and the block at the file's listed position holds the start of the file's own block. |
| `ReplayedRecords.TwoRunsDiffer` | third_party/proxmoxbackupclient_go-master/pbscommon/pxar.go:559-724 | An input, a directory with a file of one byte, on which this makes the restored data wrong. |
| `BackupRuns.OneRun` | internal/pbsbackup/backup.go:282-598 | A run from the cache file's records to the closed index: the chunk index leads to the specified stream, the file index is that of the archive the recorder followed, and the live cache is sound and remembers what it was made from. |
| `CacheBootstrap.BootstrappedCovers` | internal/pbsbackup/bootstrap_pbs_cache.go:105-127 | The spans of a bootstrapped record pass the length test of `canReuse` if and only if the catalog claims 16 bytes more than the payload has. |
| `CacheBootstrap.BootstrappedIsRefused` | internal/pbsbackup/pbs_fileindex.go:116-151 | So no record bootstrapped from an agreeing catalog is ever accepted, whatever it is refreshed with. |
| `CacheBootstrap.ReadIndex` | internal/pbsbackup/bootstrap_pbs_cache.go:129-190 | Fetching the chunks and feeding them to a recorder gives what one feed of them records, or nothing if it fails. |
| `CacheBootstrap.BuildRecords` | internal/pbsbackup/bootstrap_pbs_cache.go:104-127 | One record for each file of the index, with its spans and the catalog's size and time. |
| `BackupSite.Site.Bootstrap` | internal/pbsbackup/bootstrap_pbs_cache.go:52-272 | Where the latest backup is its archive, the cache is rebuilt exactly if it has no spans and that backup has files, at most 50,000 chunks and none that ends inside a file's headers; if the catalog gives each file its size, nothing of the rebuilt cache is replayed. From any other backup whatever is rebuilt is sound. |
| `BackupSite.Site.Backup` | internal/pbsbackup/backup.go:282-598 | Over any history of bootstraps, refreshes, runs (fast or forced full) and runs that broke off, the new index leads to the stream of this run and every earlier one to its own; the new stream is the archive of the source if and only if no file was replayed, and it is known how much longer it is. |
| `BackupSite.Site.Abort` | internal/pbsbackup/backup.go:317-324 | A run that breaks off leaves chunks on the server, and no cache if it was forced full; everything made before still restores. |
| `BackupSite.Site.Refresh` | internal/pbsbackup/pbs_index_enrich.go:12-63 | Refreshing between runs keeps all of it. |
| `BackupSite.Site.Restore` | internal/pbsbackup/didx.go:69-95 | Any backup ever made is joined back to exactly the stream that was stored for it. |
| `BackupSite.Site.RestoreFiles` | internal/pbsbackup/pxar_index.go:359-474 | Of any backup ever made exactly the wanted paths its files have no key of are left for the full pass; if its stream is its archive, the others all come back, each as the data of such a file. |
| `BackupSite.OwnPathOwnData` | internal/pbsbackup/pxar_index.go:45-58 | Where no two files share a key, a file's own path is found and leads to its own data only. |
| `ZipRunner.ComputeDeleted` | internal/filebackup/runner.go:508-519 | Exactly the indexed paths that were not found and are not under an unverified directory, each once. |
| `ZipRunner.Plan` | internal/filebackup/runner.go:146-160 | The loop selects the files whose content has to be archived and notices any change of permissions. |
| `ZipRunner.WriteZip` | internal/filebackup/runner.go:622-713 | Succeeds exactly when every planned file is readable or may be skipped; the entries and the skipped paths are then determined. |
| `ZipRunner.ListZipEntries` | internal/filebackup/runner.go:715-734 | What is read back from the archive, directories left out. |
| `ZipRunner.RestatedIsArchived` | internal/filebackup/runner.go:234-250 | The detour over the finished archive gives back exactly the planned files that are in it. |
| `ZipRunner.BuildManifest` | internal/filebackup/runner.go:362-374 | A full manifest names itself; an incremental one names the full archive, every incremental since and itself. |
| `ZipRunner.BuildSnapshotMeta` | internal/filebackup/runner.go:323-350 | The sidecar computed by loops over the old index. |
| `ZipRunner.Store.constructor` | internal/fileindex/index.go:56-81 | A store starts with the index it is given. |
| `ZipRunner.Store.UpdateStore` | internal/filebackup/runner.go:376-441 | The whole new index: deletions, archived files with their archive, permission changes, archive list. |
| `ZipStep.MakeArchive` | internal/filebackup/runner.go:200-250 | An archive comes out exactly when it can be written, is not empty without reason, skips at most a tenth and misses no planned file. |
| `ZipMirror.MirrorsStep` | internal/filerestore/chain.go:89-120 | Dropping the deleted keys and entering the archive's files keeps view and index mirror images. |
| `ZipMirror.AllPathsShown` | internal/filerestore/catalog.go:245-262 | The view has all paths of the index if and only if every one of them is a safe entry name. |
| `ZipStep.NewIndex` | internal/filebackup/runner.go:376-441 | The paths of the index after a run, and for each the archive, size and time it has. |
| `ZipStep.NextSnapshot` | internal/filebackup/runner.go:362-441 | One more archive on the chain again mirrors the index. |
| `ZipStep.NextHolds` | internal/filebackup/runner.go:376-441 | The archive the index names for a path holds the bytes its size and time stand for. |
| `ZipStep.IndexIsTheScan` | internal/filebackup/runner.go:139-174 | With nothing skipped or unverified, the index has exactly the scanned paths with their size and time. |
| `ZipSidecar.SidecarIsMeta` | internal/filebackup/runner.go:323-441 | With metadata everywhere and nothing skipped, the sidecar built before the update is the index's metadata after it. |
| `ZipView.BuildSnapshotView` | internal/filerestore/chain.go:35-124 | A view is built exactly when manifests and archives of the chain are there under usable names, and is then the replay of the chain. |
| `ZipHistory.RemainsReplay` | internal/filerestore/chain.go:56-121 | Whatever is left of the destination replays a snapshot as it was made, or not at all. |
| `ZipHistory.ZippedIsFound` | internal/filerestore/catalog.go:264-275 | A file of the archive is found under its own path. |
| `ZipJob.Decide` | internal/filebackup/runner.go:133-173 | Full, incremental or nothing, with the exact plan and deletions. |
| `ZipJob.Job.Publish` | internal/filebackup/runner.go:273-305 | Uploads in order; after a failure the destination is as before if the clean-up works, and otherwise has exactly the parts uploaded until then. |
| `ZipJob.Job.Commit` | internal/filebackup/runner.go:273-315 | Upload and saved index together: all of it, or the index as it was and at the destination exactly what could not be taken back. |
| `ZipJob.Job.Run` | internal/filebackup/runner.go:67-321 | Exactly when a run makes an archive, reports no change or fails; the new index and destination; after any outcome every archive ever made still mirrors the index of its time, and all of its chain is still there unless it was lost. |
| `ZipJob.Job.Lose` | internal/filerestore/chain.go:80-121 | Losing remote files takes nothing back of what was proved of the rest; the lost names are remembered. |
| `ZipJob.CompleteAfter` | internal/filebackup/runner.go:133-137 | The archive just made can be put together if and only if its name and all names of the chain before it are usable and all of that chain is there with its manifests, although the run checks for the full archive only. |
| `ZipJob.MadeNamesAreSafe` | internal/filebackup/runner.go:176-180 | A name made of a host name and a time stamp without slashes and colons is usable. |
| `ZipJob.Job.Snapshot` | internal/filerestore/chain.go:35-124 | For every archive of every history: the view has exactly the index's (safe) paths, each from the archive the index named, and every one restores to the bytes the index stood for; and there is a view whenever nothing of the chain was lost and its names are usable. |
| `ZipJob.Job.RunAndRestore` | internal/filebackup/runner.go:67-321 | A run followed by a restore of its archive: there is a view if and only if the chain before it was usable, and always if nothing of it was ever lost; if the run passed nothing over, the restore gives back exactly the scanned tree and the sidecar is the index's metadata. |
| `Varint.ReadU64` | internal/pbsbackup/catalog_parse.go:307-326 | The loop reads at most ten bytes as its specification says. |
| `Varint.ReadI64` | internal/pbsbackup/catalog_parse.go:329-351 | The loop reads at most eleven bytes, with the wrap-around arithmetic of the closing zero. |
| `Varint.DecodeU64` | internal/pbsbackup/catalog_parse.go:307-326 | Every unsigned 64-bit value is read back from its encoding, whatever follows, consuming exactly the encoding. |
| `Varint.DecodeI64` | internal/pbsbackup/catalog_parse.go:329-351 | So is every signed 64-bit value, the least one included. |
| `Varint.ReadsAreShort` | internal/pbsbackup/catalog_parse.go:307-351 | No successful read consumes more than 10 and 11 bytes. |
| `Catalog.ParseCatalogDirChildren` | internal/pbsbackup/catalog_parse.go:122-229 | The row loop of a table. |
| `Catalog.ListCatalogDirChildren` | internal/pbsbackup/catalog_parse.go:106-120 | The table at a position. |
| `Catalog.WalkCatalogDir` | internal/pbsbackup/catalog_parse.go:258-274 | The recursive walk, entry by entry, as far as calls may nest. |
| `CatalogWalks.ComesBackExactly` | internal/pbsbackup/catalog_parse.go:258-274 | A walk never comes back, however deep it may go, if and only if it does not within one call more than the catalog has bytes; all that come back agree. |
| `CatalogWalks.OwnChildNeverReturns` | internal/pbsbackup/catalog_parse.go:258-274 | From a table whose first subdirectory is at distance 0 the walk does not come back. |
| `CatalogWalks.UnreadableNeverReturns` | third_party/proxmoxbackupclient_go-master/pbscommon/pxar.go:327-334 | The catalog the writer leaves of a backup whose one entry is a directory it could not read is of this kind. |
| `CatalogWalks.BackwardsReturns` | internal/pbsbackup/catalog_parse.go:258-274 | Where every table refers to tables in front of it, every walk comes back. |
| `Catalog.CatalogContentRoot` | internal/pbsbackup/catalog_parse.go:48-61 | The root table, or the one directory it consists of. |
| `Catalog.ResolveCatalogDir` | internal/pbsbackup/catalog_parse.go:63-99 | The way down by path parts. |
| `Catalog.ListCatalogDirEntries` | internal/pbsbackup/catalog_parse.go:231-248 | Listing by path. |
| `Catalog.ForEachCatalogFile` | internal/pbsbackup/catalog_parse.go:250-256 | All entries of the content. |
| `CatalogTheorem.ListingIsExact` | internal/pbsbackup/catalog_parse.go:106-229 | For every tree with its tables placed anywhere in front of their parents': listing a table gives exactly the direct children. |
| `CatalogTheorem.WalkIsExact` | internal/pbsbackup/catalog_parse.go:258-274 | The walk terminates and gives every entry once, with its full path, size and time. |
| `CatalogLookup.ContentIsExact` | internal/pbsbackup/catalog_parse.go:48-61 | The content starts in the root's only entry exactly if that is a directory. |
| `CatalogLookup.PathListingIsExact` | internal/pbsbackup/catalog_parse.go:63-99 | Any path string lists exactly the directory its parts lead to, or is not found. |
| `CatalogLookup.PathIsUnderstood` | internal/pbsbackup/catalog_parse.go:34-38 | A directory's path is cut into its names again if and only if white space stands at neither of its ends. |
| `CatalogLookup.DirectoryIsListed` | internal/pbsbackup/catalog_parse.go:231-248 | The lookup of a directory's own path gets to it if and only if white space stands at neither end of the path, and then lists exactly what it holds. |
| `CatalogLookup.AllEntriesAreExact` | internal/pbsbackup/catalog_parse.go:250-256 | Reading all entries of a catalog of a tree comes back and gives every entry of its content once, with full path, size and time. |
| `CatalogWriter.EveryTreeHasACatalog` | internal/pbsbackup/catalog_parse.go:24-61 | Every tree can be laid out as a catalog the theorems speak of. |
| `BackupQueue.SameIsEquivalence` | internal/backupqueue/inflight.go:110-121 | The identity test is an equivalence. |
| `BackupQueue.QueueFiles.QueueContainsItem` | internal/backupqueue/inflight.go:110-121 | The loop finds an item that counts as the same if there is one. |
| `BackupQueue.QueueFiles.ReconcileOrphanInflight` | internal/backupqueue/inflight.go:153-188 | The state on disk after any number of its writes, and when the claim may proceed. |
| `BackupQueue.QueueFiles.ClaimNext` | internal/backupqueue/inflight.go:132-151 | Cut short after any number of writes it leaves exactly that prefix of them; it succeeds exactly when all are done and something was queued. |
| `BackupQueue.QueueFiles.ReconcileInflight` | internal/backupqueue/inflight.go:64-100 | The same for the reconcile, which does nothing while a backup is at work. |
| `BackupQueue.QueueFiles.Enqueue` | internal/backupqueue/queue.go:129-151 | Appends exactly when there is room and the slot is not queued. |
| `BackupQueue.QueueFiles.EnqueueFront` | internal/backupqueue/queue.go:154-159 | Prepends with no check of any kind. |
| `BackupQueue.ReconcileAgain` | internal/backupqueue/inflight.go:64-100 | A reconcile cut short anywhere and repeated does what one run does. |
| `BackupQueue.CrashedClaimRecovers` | internal/backupqueue/inflight.go:132-188 | Recovery after a claim cut short anywhere gives back the original queue in order, if and only if the claim did not complete over a head that counts as the same as an item behind it. |
| `QueueRuns.ClaimKeepsOrder` | internal/backupqueue/inflight.go:132-151 | At every crash point of a claim the queue is the unfinished suffix of what was accepted. |
| `QueueRuns.Machine.Enqueue` | internal/backupqueue/queue.go:129-151 | A new item joins the end of the accepted ones, or nothing changes. |
| `QueueRuns.Machine.Drain` | internal/backupqueue/process.go:6-18 | What is started is the first item not settled, over every history of crashes; a claim refused because an item in flight holds the lock changes nothing. |
| `QueueRuns.Machine.Reconcile` | internal/backupqueue/inflight.go:64-100 | Left to finish, it leaves every unfinished item queued, in order, and no marker. |
| `QueueRuns.Machine.Finish` | internal/backupqueue/inflight.go:50-61 | Finishing loses no other item, even if the marker stays behind. |
| `QueueRuns.Machine.Requeue` | internal/backupqueue/process.go:25-30 | Putting a claimed item back loses nothing wherever it is cut short. |
| `QueueRuns.Machine.GiveUp` | internal/backupqueue/process.go:19-29 | An item given up on is lost exactly if the process dies between clearing its marker and recording it; nothing else is. |
| `QueueRuns.Machine.GiveBack` | internal/backuprunner/execute.go:137-148 | An item whose backup met a held lock goes back to the head, or is recorded; it is lost exactly if the process dies between clearing its marker and either of these. |
| `UploadPipeline.StepKeepsInv` | internal/pbsbackup/upload_pipeline.go:49-125 | Every atomic step of any thread keeps the accounts: a digest in the index is on the server, known, replayed, on its way, or the error is set. |
| `UploadPipeline.NoIndexOverFailedUpload` | internal/pbsbackup/upload_pipeline.go:38-125 | In every interleaving a closed index contains only digests uploaded without error, known at the start or replayed; no more workers send than allowed; new and reused bytes sum to the position. |
| `UploadPipeline.WorkIsProgress` | internal/pbsbackup/upload_pipeline.go:104-125 | Every worker step, whatever the server answers, brings the end of the wait closer. |
| `BatchSelection.CollectBatchTargets` | internal/filerestore/restore.go:266-337 | The targets are exactly the files selected or under a selected folder, each once; the call fails exactly if nothing is selected or a selection is unknown. |
| `BatchSelection.PicksAreSelected` | internal/filerestore/restore.go:349-364 | Leaving covered files to shorter selections loses nothing and adds nothing. |
| `ScheduleSlots.ActiveSlot` | internal/schedule/slot.go:17-41 | The latest slot over all days that is at most 30 minutes old, though only two days are tried. |
| `ScheduleSlots.DueHasASlot` | internal/schedule/catchup.go:12-54 | A job that is due has an active slot. |
| `ScheduleSlots.SlotsNeverGoBack` | internal/schedule/slot.go:17-41 | The active slot never moves backwards in time. |

## Left out

- Network, server and share: the server is a map from digests to chunks, a share a map from names to archives and sidecars; retries, transport errors in the middle of a file and retention are not modelled.
- Of the archive writer: entries that are skipped, subdirectories and files that cannot be read, and files that change size while they are read; writing the catalog. The stored-blob path: the backup sets `OnPxarStreamReuse` but not `ReuseFileBytes`, so it is never taken.
- File system work: walking, exclusions, attribute capture, renames, spill files, memory mapping. Scans and reads are inputs.
- Random access is stated for goodbye tables that are search trees on distinct hashes, as the writer's are when nothing was replayed; what a lookup makes of other tables is left open. The hash values themselves are not modelled.
- Go lengths of 2^63 and more turn negative and fail a slice; the model reports them as panics and claims nothing about them. Archives and streams are shorter than 2^63 bytes, catalogs than 2^62.
- Catalog.WalkCatalogDir: the entries a walk reports before an error, and a callback that stops it, are left out; the result is all entries or the error. `depth` bounds how deep calls nest; the program has no bound but its stack.
- Catalog.CatalogDirName: volume prefixes that the path library strips on Windows are not modelled; names hold no separators.
- ZipView.BuildSnapshotView: takes the archive's file name; choosing one by time, and the order in which equal keys of one archive are listed, are left out, since keys within an archive are distinct.
- ZipJob.Job.Publish: an upload of the archive itself that fails leaves nothing behind; the repeated check for skipped files after the uploads, which cannot fail there, is not written out.
- ZipRunner.Store.constructor: reading and repairing the index file, and clearing it when a full run is forced, happen before; the second is part of `ZipJob.Job.Run`.
- ZipJob.Job.Run: the walk's own failures happen before the model starts, except that the index of a forced full run is already cleared.
- QueueRuns.Machine.Drain: claim and recovery do not interleave, and a backup's marker is cleared by its own end only, not by that of an earlier one still running out.
- QueueRuns.Machine.GiveUp: the dead-letter file keeps the last 500 records; the model counts an item as recorded once it was.
- BackupQueue.QueueFiles.ClaimNext: an unreadable marker is removed as in the source, but its dead-letter record is not kept.
- UploadPipeline.StepKeepsInv: the bandwidth limiter and the error values are not modelled, only whether an error is set; a failing commit of known chunks on cancellation is covered by `NoticeCancel`.
- BackupSite.Site.Bootstrap: which records of a catalog with other sizes are replayed is said by `BootstrappedCovers` only; for a latest backup that is not its archive it is said that the records are sound, not when there are any. Keys are those of the file index.
- BackupSite.Site.RestoreFiles: nothing is promised of the data where the stored stream is not its archive.
- The targets of `RestoreFiles` are taken in the order given, not sorted by offset (`RestoreIndexed` holds for any order); the full pass for the others is `PxarRestore.StreamRestore`.
- FastIncremental.FastIncremental.Save: the legacy fields for stored blobs, the normalisation of keys on loading and the failure of a save are left out.
- ChunkStream.ChunkState.HandleData: cancellation and failing uploads end the run; they are the subject of `UploadPipeline` only.
- BatchSelection.CollectBatchTargets: destination paths, which may also be refused, and the final order of the targets are left out; "exactly" is stated for catalogs whose file paths do not end in a slash.
- ScheduleSlots.ActiveSlot: clocks that shift for daylight saving, and the text form of slot keys.
- Schedule claims across processes, file locks, JSON, migration, credentials, notifications, progress, localisation, the tray and the service.
