# Verified model of the torrent engine's accounting

A torrent is one flat space of bytes that is cut in two ways: into pieces of equal
length (the last one may be shorter) and into files of any length, possibly empty,
possibly padding. This project models the code that has to keep the two cuts, the
bitfields over pieces and chunks and the derived byte counters in agreement, the code
that reads, writes, hashes and streams over that space, and the self-contained
structures around it: the bencode parser, the message buffer, the metadata
reassembly, the write-through cache, the media server's file tree and the
availability display.

`dafny verify dfyconfig.toml` checks everything.

## How it is organised

| files | what they model |
|---|---|
| `lengths.dfy`, `file_info.dfy` | the geometry: pieces, chunks, file offsets, and the file table |
| `tracker_spec.dfy`, `chunk_tracker.dfy` | what each tracker operation does to the tracker's state, and the class that does it in place |
| `tracker_runs.dfy`, `tracker_counters.dfy`, `tracker_chunks.dfy`, `tracker_queue.dfy` | what holds in every reachable tracker state |
| `file_space.dfy`, `file_ops.dfy`, `file_ops_properties.dfy` | the files as one flat space; checking, reading and writing over it, and how these agree |
| `create_torrent.dfy`, `seeding.dfy` | hashing new torrents; creation, check and tracking end to end |
| `interleave.dfy`, `streaming.dfy`, `stream_downloads.dfy` | the round-robin piece scheduler, the positioned reader, and reading while the torrent downloads |
| `bencode.dfy`, `bencode_round_trip.dfy`, `bencode_grammar.dfy` | the bencode parser (BEP 3), its inverse, and what it accepts on any input |
| `file_tree.dfy`, `read_buf.dfy`, `peer_info_reader.dfy`, `write_through_cache.dfy` | folder tree, message framing (BEP 3), metadata exchange (BEP 9), piece cache |
| `availability.dfy`, `row_snapshot.dfy` | per-piece peer counters and the bins that display them |
| `live_downloads.dfy` | reserving, stealing, writing, checking and completing pieces by many peers at once, and exactly when this keeps what is had verified |
| `cache_order.dfy`, `cached_check.dfy` | which pieces the cache keeps, and checking a piece through it |
| `witnesses.dfy`, `witnesses_live.dfy` | for each failure listed below, a concrete input that reaches it |

Code that updates objects in place is a class whose methods are proved against a
function or relation on the state (`Contents() == ...`, `Reselected(...)`); the
properties of single calls, of runs and of several operations together are lemmas
about those. Pure code is functions. Loops of the original are loops here.

Modelling choices:

- `Lengths` and the file table come from `librqbit_core`, which is not part of this
  model. They are defined from how the modelled code uses them; `GoodInfos` states
  what the table promises: files lie one after the other, fill the torrent, and the
  piece range of a file is the set of pieces it shares a byte with. In particular an
  empty file has an empty range.
- Bitfields and growable vectors are sequences held in fields. Storage is one
  sequence of cells per file; a cell that is `None` cannot be read. Writes may fail after
  any first part of their data. Ghost counters of failed writes and failed socket reads tie every
  reported failure to a real one. Nobody but the modelled code changes
  the files: that streams deliver verified bytes rests on this.
- A live download is a state machine (`LiveDownloads`): reserving, stealing, the test before
  a write, the write, the marking, the check and the completion are separate steps, which
  peers interleave in any order.
- The hash is a function parameter from byte sequences to digests, of which nothing
  is assumed. A hasher that is updated step by step is the bytes fed so far.
- The number of bytes a read returns, whether a read or write fails, the capacity a vector
  grows to, the order of map iteration and how pieces are computed from a peer's progress
  are left open, so the theorems hold for all of them.
- Proofs hide the definitions they do not need (`hide ...`) to stay quick.

## Where the code differs from what one would expect

Each of these is proved; where the documented behaviour fails only sometimes, so is the
exact condition under which it holds, and `witnesses.dfy` or `witnesses_live.dfy` has an input
or a run that fails.

- Counting a completed piece skips to its first file and stops at the first file that
  does not contain it (`live/mod.rs:783-793`). An empty file between two files of the
  piece ends the loop early and later files are not counted: `RunCoversIff`,
  `CompleteExact`, `EmptyFileLosesCount`. This is so if the piece range of an empty file
  is empty, as assumed above; the ranges are computed by another crate, and a test of the
  tracker leaves open which piece an empty file belongs to (`chunk_tracker.rs:545`).
- Completing a piece does not clear its queue bit, and putting a piece back queues it
  even if it is not selected: `QueueGuardExact`,
  `UnreservedStaysQueued`, `UnselectedIsQueued`. Choosing files while a piece is in
  flight therefore leaves it queued although it is had: `ReselectInFlight`, `ReselectedStaysQueued`.
- A piece that is had can be put in flight again and be overwritten by blocks that are never
  hashed, so streams deliver them. First, the queue is not filtered by what is had
  (`live/mod.rs:1250-1251`), and files may be chosen again while a piece is in flight:
  `ReselectionOverwritesHadPiece`. Second, a complete piece leaves the table of pieces in
  flight before it is checked and marked (`live/mod.rs:1708`), and in between a stream makes
  another peer ask for it (`live/mod.rs:1246-1249`): `StreamOverwritesHadPiece`. The exact
  condition on every step is `GuardExact`; it also asks that no second block of a piece is
  being written when the piece is complete. Under it had pieces stay verified and streams
  deliver verified bytes: `RunsStayVerified`, `DeliveredBytesAreVerified`. That blocks must
  go to missing pieces is itself exact: `BlockGuardExact`.
- In the same ways a piece can be completed twice, and is then counted twice in its files, so
  both sides of the condition in `CompleteExact` are reached: `PieceCountedTwice`. From safe
  states it cannot: `SafeCompletionIsFirst`.
- The hash for the last, partial piece of a new torrent is added depending on the
  last file only (`create_torrent_file.rs:149`). It is missing if the last file is
  empty, and there is one too many if the content ends at a piece boundary and the
  last file is not empty: `HashCountFits`, `CreatedThenChecked`, `EmptyLastFileLosesHash`,
  `FullLastPieceAddsHash`.
- In the streaming check a file that failed is not read again, but the later pieces
  over it are still hashed, without its bytes. So the pass can contradict the check of the
  single piece, and can even accept a piece by the hash of no bytes: `AgreementExact`,
  `HashedEmptyExact`, `FailedFileFailsGoodPiece`. A download that starts from such a check may
  start with had pieces that do not check out; without read errors it does not: `CheckedStart`.
- A piece enters the cache filled with zeros instead of the stored bytes
  (`write_through_cache.rs:95-97`): `CachedByteIsRight`, `ReadAgrees`, `CachedNeighbourIsZero`.
  So if a piece leaves the cache between two of its blocks, it is checked with zeros in place
  of the first one, and a correct download is taken for a broken one: `CachedCheckExact`,
  `EvictionSpoilsPiece`.
- A write through the cache that fails, or runs past the end of its file, leaves bytes in
  the cache that the files do not hold there: `WriteKeeps`, `FailedWriteIsRead`. While writes
  succeed inside their files, as the chunk writer's do, this cannot happen:
  `LandingRunsHaveNoStray`.
- The piece order of an empty range that does not start at 0 overflows
  (`file_info.rs:21`), which a build with overflow checks turns into a panic:
  `PrioritiesArePermutation`, `SmallestOverflows`. With right counters the queue never asks for such a
  range: `NoQueuedPieceIsLost`.
- A comment says that streams queue a tenth of the file (`streaming.rs:70`); the code
  queues a window of 32 MiB: `QueueIsWindow`.
- A stream over a padding file reads a placeholder that was never opened and fails
  (`storage/filesystem/fs.rs:170`, `streaming.rs:216`), although hashing and reading chunks take
  such files as zeros. So `DeliveredBytesAreVerified` is about the other files.
- Object ids of the media server do not decode back for torrent ids from 65535 on:
  `IdRoundTrip`, `SmallestOverflows`.

## Model

| member | source | states |
|---|---|---|
| TorrentLengths.PieceBounds | crates/librqbit-patched/src/chunk_tracker.rs:87-90 | every piece is a non-empty interval of at most the piece length; neighbours touch and the last one ends at the torrent length |
| TorrentLengths.PieceOrder | crates/librqbit-patched/src/chunk_tracker.rs:87-90 | an earlier piece ends before a later one starts |
| TorrentLengths.PieceStartIsProduct | crates/librqbit-patched/src/peer_info_reader/mod.rs:109 | piece `p` starts at `p` times the piece length |
| TorrentLengths.ChunkStartIsProduct | crates/librqbit-patched/src/chunk_tracker.rs:74-101 | the chunk bits of piece `p` start at `p` times the default number of chunks per piece |
| TorrentLengths.CeilDivIsDivCeil | crates/librqbit-patched/src/chunk_tracker.rs:74-101 | the recursive count of blocks is `div_ceil`, and is the least number of blocks that holds the bytes |
| TorrentLengths.ChunkRangesDisjoint | crates/librqbit-patched/src/chunk_tracker.rs:74-101 | chunk ranges of different pieces are disjoint, non-empty and inside the chunk bitfield |
| TorrentLengths.ChunkExists | crates/librqbit-patched/src/chunk_tracker.rs:74-101 | chunk `k` of a piece exists exactly if its start, `k` times the chunk size, lies in the piece |
| TorrentLengths.ChunksPartition | crates/librqbit-patched/src/chunk_tracker.rs:277-306 | every byte of a piece lies in exactly one of its chunks |
| FileInfos.PrioritiesArePermutation | crates/librqbit-patched/src/file_info.rs:15-26 | the piece order of a file overflows exactly on an empty range that does not start at 0; otherwise it yields each piece of the range once, first piece, last piece, then the middle upwards |
| ChunkTracking.ComputeChunkHaveStatus | crates/librqbit-patched/src/chunk_tracker.rs:74-101 | error exactly when the bitfield is too short; otherwise a chunk bit is set exactly when the chunk belongs to a had piece |
| ChunkTracking.ComputeQueuedPieces | crates/librqbit-patched/src/chunk_tracker.rs:103-128 | error exactly when the bitfields differ in size; otherwise queued means selected and missing |
| ChunkTracking.ChunkTracker.New | crates/librqbit-patched/src/chunk_tracker.rs:138-165 | error exactly on bitfields that do not fit; otherwise a tracker in sync whose bitfields, chunk bits, per-file counters and totals are the ones its inputs determine |
| ChunkTracking.ChunkTracker.RecalculatePerFileBytes | crates/librqbit-patched/src/chunk_tracker.rs:167-179 | each counter is the bytes that the had pieces of the file's range share with the file |
| ChunkTracking.ChunkTracker.CalcHns | crates/librqbit-patched/src/chunk_tracker.rs:201-214 | the totals are the lengths of the had, the selected, and the selected and missing pieces |
| ChunkTracking.ChunkTracker.ReserveNeededPiece | crates/librqbit-patched/src/chunk_tracker.rs:193-195 | clears one queue bit and changes nothing else |
| ChunkTracking.ChunkTracker.MarkPieceBrokenIfNotHave | crates/librqbit-patched/src/chunk_tracker.rs:235-250 | a had piece is left alone; a missing one is queued and exactly its chunk bits are cleared |
| ChunkTracking.ChunkTracker.MarkPieceDownloaded | crates/librqbit-patched/src/chunk_tracker.rs:252-262 | from a tracker in sync the subtraction does not underflow; a missing piece becomes had and the totals move by its length, needed only if it is selected |
| ChunkTracking.ChunkTracker.MarkChunkDownloaded | crates/librqbit-patched/src/chunk_tracker.rs:277-306 | refuses blocks that are not a chunk of their piece (which ones are: `BlockIsChunk`); otherwise sets one bit and reports whether the piece was complete before, is complete now, or neither |
| ChunkTracking.ChunkTracker.UpdateOnlyFiles | crates/librqbit-patched/src/chunk_tracker.rs:311-388 | for any file lengths and any set of files the walk ends; it fails, with the error for a zero shift, exactly when the files are longer than the torrent; the pieces it passed wholly get the selection "some chosen file has a byte here", the missing ones among them queue and chunk bits to match, and the totals are those of the new bitfields |
| ChunkTracking.ChunkTracker.Advance | crates/librqbit-patched/src/chunk_tracker.rs:332-378 | one step of the walk keeps the piece cursor, the updated prefix and the running totals in agreement with the bytes walked; the narrowing to 32 bits cannot fail |
| ChunkTracking.ChunkTracker.DecidePiece | crates/librqbit-patched/src/chunk_tracker.rs:341-369 | deciding one more piece extends the updated prefix and the totals by exactly that piece |
| ChunkTracking.WalkTouches | crates/librqbit-patched/src/chunk_tracker.rs:325-328 | the flag carried along the walk is the overlap of the chosen files with the part of the piece walked so far |
| ChunkTracking.WalkPastTheEnd | crates/librqbit-patched/src/chunk_tracker.rs:329-331 | the zero shift is reached only if the file lengths exceed the torrent, and then all pieces have been decided |
| ChunkTracking.ChunkTracker.UpdateFileHaveOnPieceCompleted | crates/librqbit-patched/src/chunk_tracker.rs:411-424 | adds the bytes the piece shares with the file to that counter only, and returns what is missing, never below 0 |
| ChunkTracking.ChunkTracker.OnPieceCompleted | crates/librqbit-patched/src/torrent_state/live/mod.rs:783-793 | exactly the files of the first unbroken run of files containing the piece are counted |
| TrackerSpec.NeededCovers | crates/librqbit-patched/src/chunk_tracker.rs:258-260 | the needed total is at least the length of any piece that is selected and missing |
| TrackerSpec.BlockIsChunk | crates/librqbit-patched/src/chunk_tracker.rs:284-298 | a block fills chunk `k` if and only if it begins at `k` chunk sizes inside the piece and ends a chunk size later or with the piece, whichever is earlier; every other block is refused |
| TrackerRuns.StepKeepsSync | crates/librqbit-patched/src/chunk_tracker.rs:41-43 | each of the six operations keeps the totals equal to what recomputing them gives |
| TrackerRuns.TotalsAlwaysInSync | crates/librqbit-patched/src/chunk_tracker.rs:201-214 | in every state of every run the totals are in sync, so completing a piece never underflows |
| TrackerRuns.TotalsMeaning | crates/librqbit-patched/src/chunk_tracker.rs:57-69 | progress is the bytes of pieces both selected and had; finished means every selected piece is had; no total exceeds the torrent |
| TrackerRuns.QueueGuardExact | crates/librqbit-patched/src/chunk_tracker.rs:235-262 | an operation keeps "queued means selected and missing" if and only if a completed piece was reserved first and only a selected piece is put back |
| TrackerRuns.ReservedPieceCompletes | crates/librqbit-patched/src/chunk_tracker.rs:193-195 | reserving a piece takes just that piece from the queue, and completing it then keeps the queue disciplined |
| TrackerRuns.ChunkGuardExact | crates/librqbit-patched/src/chunk_tracker.rs:235-306 | an operation keeps "had pieces have all their chunks" if and only if a piece marked as had was complete |
| TrackerRuns.GuardedRuns | crates/librqbit-patched/src/chunk_tracker.rs:138-306 | both invariants hold in every state of every run from a new tracker that respects the two guards |
| TrackerCounters.FreshCounters | crates/librqbit-patched/src/chunk_tracker.rs:167-179 | the counters of a new tracker are right: summing over the range of a file is summing over all pieces |
| TrackerCounters.RowSum | crates/librqbit-patched/src/chunk_tracker.rs:36-43 | had bytes counted file by file and piece by piece are the same |
| TrackerCounters.Conservation | crates/librqbit-patched/src/chunk_tracker.rs:36-43 | right counters add up to the had bytes; none exceeds its file, and it reaches the file length exactly when every piece of the file is had |
| TrackerCounters.FinishedMeansCounted | crates/librqbit-patched/src/chunk_tracker.rs:394-400 | a file is finished exactly when its counter has reached its length |
| TrackerCounters.RunCoversIff | crates/librqbit-patched/src/torrent_state/live/mod.rs:783-793 | the run of files that is counted is the set of files overlapping the piece if and only if no empty file lies between two of them |
| TrackerCounters.CompleteExact | crates/librqbit-patched/src/torrent_state/live/mod.rs:783-793 | completing a piece keeps the counters right if and only if it is the first completion and no empty file lies inside the piece |
| TrackerCounters.CounterGuardExact | crates/librqbit-patched/src/chunk_tracker.rs:411-424 | the same for every operation: marking a missing piece as had without counting it makes the counters wrong |
| TrackerCounters.CountersAlwaysCorrect | crates/librqbit-patched/src/chunk_tracker.rs:138-179 | from a new tracker, in every state of every run within that guard the counters are right and add up to the had bytes |
| TrackerChunks.BitsAfter | crates/librqbit-patched/src/chunk_tracker.rs:277-306 | after any deliveries since a reset, the chunk bits of a piece are the set of its chunks that arrived |
| TrackerChunks.ReportIsDetermined | crates/librqbit-patched/src/chunk_tracker.rs:277-306 | the report depends only on which of these intervals had arrived: none for a block that is not one; `Completed` exactly for the one that fills the last gap |
| TrackerChunks.CompletedExactlyOnce | crates/librqbit-patched/src/chunk_tracker.rs:277-306 | for any order, duplicates and foreign blocks in between, a piece is reported complete once if all its intervals arrive and never otherwise |
| TrackerChunks.WholeIsCovered | crates/librqbit-patched/src/chunk_tracker.rs:277-306 | all chunks have arrived if and only if blocks that are chunks cover every byte of the piece |
| TrackerChunks.CutPieceCompletes | crates/librqbit-patched/src/chunk_tracker.rs:277-306 | a piece cut into blocks of the chunk size, the last one as long as what is left, is reported complete exactly once when all of them have arrived in any order |
| TrackerChunks.BrokenResets | crates/librqbit-patched/src/chunk_tracker.rs:235-250 | putting a missing piece back forgets all its chunks |
| TrackerQueue.ComputeSelectedPieces | crates/librqbit-patched/src/torrent_state/initializing.rs:38-54 | a bit is set exactly when the piece is in the range of a chosen file whose range fits the bitfield |
| TrackerQueue.SelectionMeaning | crates/librqbit-patched/src/chunk_tracker.rs:311-388 | with files that fill the torrent: selected means some chosen file overlaps the piece; missing pieces are queued exactly when selected; had pieces keep their queue bit; exactly the chunks of selected missing pieces are forgotten; totals in sync |
| TrackerQueue.StartAndUpdateAgree | crates/librqbit-patched/src/torrent_state/initializing.rs:38-54 | starting with a choice of files and choosing them later select the same pieces |
| TrackerQueue.ReselectInFlight | crates/librqbit-patched/src/chunk_tracker.rs:359-361 | choosing files while a piece is in flight queues it again, and completing it leaves it queued although it is had |
| TrackerQueue.PrioritiesInOrder | crates/librqbit-patched/src/chunk_tracker.rs:216-229 | the pieces of files of higher priority come before those of lower priority |
| TrackerQueue.EndsComeFirst | crates/librqbit-patched/src/file_info.rs:14-26 | of an unfinished file whose first and last piece are queued, these two are asked for first |
| TrackerQueue.QueuedOfFileIs | crates/librqbit-patched/src/chunk_tracker.rs:216-229 | what is asked for of one file: nothing if it is unknown or its counter is full; an overflow if its range is empty and does not start at 0; otherwise exactly the queued pieces of its range, the first one, the last one, then upwards |
| TrackerQueue.NoQueuedPieceIsLost | crates/librqbit-patched/src/chunk_tracker.rs:216-229 | with a disciplined queue and right counters the iterator never overflows and yields exactly the queued pieces of the prioritised files |
| FileSpace.Storage.PReadExact | crates/librqbit-patched/src/storage/mod.rs:105 | reads all bytes or fails, failing exactly when one of them is unreadable; nothing outside the target range is changed |
| FileSpace.WrittenCell | crates/librqbit-patched/src/storage/mod.rs:109 | a write changes exactly the cells in its range and never shortens a file |
| FileSpace.SpaceSlice | crates/librqbit-patched/src/file_ops.rs:191-207 | a stretch of one file is the same stretch of the flat space at the file's offset |
| FileOperations.FileOps.UpdateHashFromFile | crates/librqbit-patched/src/file_ops.rs:22-49 | feeds the hash exactly the requested bytes, zeros for padding, whatever the buffer size; fails exactly when one is unreadable |
| FileOperations.FileOps.CheckPiece | crates/librqbit-patched/src/file_ops.rs:184-248 | compares the hash of the piece's slice of the flat space; error exactly on an unreadable byte or a missing hash |
| FileOperations.FileOps.InitialCheck | crates/librqbit-patched/src/file_ops.rs:76-182 | error exactly when there are no files, a readable piece has no hash, or the files are too short, each with its own error in this order; otherwise exactly the readable pieces whose fed bytes match are marked |
| FileOperations.FileOps.CheckNext | crates/librqbit-patched/src/file_ops.rs:113-178 | one round of that pass keeps position and marks in agreement with the files, or fails with the error that the whole pass has |
| FileOperations.FileOps.StreamPiece | crates/librqbit-patched/src/file_ops.rs:113-170 | one piece of the pass is fed the bytes of its slice except those of files that failed before the piece; incomplete exactly when the files end |
| FileOperations.FileOps.NextSegment | crates/librqbit-patched/src/file_ops.rs:114-133 | skips any number of empty and used-up files and stands at the same position; gives up exactly at the end of the flat space |
| FileOperations.FileOps.ReadSegment | crates/librqbit-patched/src/file_ops.rs:135-161 | reading on in the current file keeps position, fed bytes and broken marks in agreement with the flat space |
| FileOperations.DroppedTogether | crates/librqbit-patched/src/file_ops.rs:141-144 | within a piece a file is either skipped whole or not at all, and it is skipped exactly when it failed before |
| FileOperations.FileOps.ReadChunk | crates/librqbit-patched/src/file_ops.rs:250-299 | refuses short buffers untouched; otherwise the buffer holds the flat space from the piece's index times the piece length plus the chunk's offset on, or an error exactly when a byte of it is unreadable; a buffer larger than what is left keeps its tail |
| FileOperations.FileOps.WriteChunk | crates/librqbit-patched/src/file_ops.rs:301-352 | the block lands at the piece's index times the piece length plus the chunk's offset: every file receives exactly its part, padding and all other files are unchanged; an error, exactly if a write of the storage failed, leaves exactly a first part of the block written |
| FileOpsProperties.FeedIsSlice | crates/librqbit-patched/src/file_ops.rs:113-170 | if no file of the piece failed before, the pass feeds exactly the slice |
| FileOpsProperties.StreamAgreesWithCheck | crates/librqbit-patched/src/file_ops.rs:76-248 | on a piece none of whose files failed earlier, the pass feeds what the single check hashes, so they agree for every hash |
| FileOpsProperties.AgreementExact | crates/librqbit-patched/src/file_ops.rs:76-248 | pass and single check agree on a piece for every hash and every list of expected hashes if and only if no file of the piece failed earlier in the pass, or one fails while the piece is read |
| FileOpsProperties.FeedShrinks | crates/librqbit-patched/src/file_ops.rs:141-144 | the pass feeds fewer bytes than the piece has exactly when a file of the piece failed earlier, and none exactly when all did |
| FileOpsProperties.ReadableStreamAgrees | crates/librqbit-patched/src/file_ops.rs:76-248 | without read errors, the pass marks exactly the pieces that check out one by one |
| FileOpsProperties.HashedEmptyExact | crates/librqbit-patched/src/file_ops.rs:141-144 | a piece is judged by the hash of no bytes if and only if all its files failed earlier in the pass |
| FileOpsProperties.FailedFileIsHashedEmpty | crates/librqbit-patched/src/file_ops.rs:141-144 | such is every piece that lies wholly in a file with an unreadable byte before the piece |
| FileOpsProperties.WriteIsSplice | crates/librqbit-patched/src/file_ops.rs:301-352 | for files stored in any length: writing a block replaces exactly its bytes of the flat space, except padding; nothing else changes but the unreadable cells between the end of a short file and the block, which become zeros |
| FileOpsProperties.FullFilesAreSpliced | crates/librqbit-patched/src/file_ops.rs:301-352 | with files stored in full length the block is spliced in and nothing else changes |
| FileOpsProperties.ReadBackWritten | crates/librqbit-patched/src/file_ops.rs:250-352 | for files stored in any length, reading a written block back succeeds and returns it, with the bytes in padding replaced by zeros |
| FileOpsProperties.ChunksApart | crates/librqbit-patched/src/file_ops.rs:250-352 | different chunks, of one piece or of two, are different bytes of the torrent |
| FileOpsProperties.OtherChunkStays | crates/librqbit-patched/src/file_ops.rs:250-352 | writing a chunk, or a first part of it, leaves what reading any other chunk returns, if that could be read or the files are stored in full length |
| FileOpsProperties.CheckMeans | crates/librqbit-patched/src/file_ops.rs:184-248 | a check of a piece tells apart: a byte of it cannot be read; it has no hash; its bytes, from index times piece length on, have the expected hash; they have another |
| CreateTorrent.CreatePieceHashes | crates/librqbit-patched/src/create_torrent_file.rs:93-151 | a failure means that some file does not open or cannot be read whole, tells which of the two, and that those before it could be hashed; with a success every file that is asked for bytes is readable, so for pieces of any length but 0 it succeeds exactly when all are. Then, for any sizes the reads return: one hash for each full piece of the concatenated files, plus one for the rest, possibly empty, exactly when the last file is not empty; the lengths recorded are the file lengths |
| CreateTorrent.HashFile | crates/librqbit-patched/src/create_torrent_file.rs:105-147 | reading one file on, in pieces of any size, keeps the hashes of the full pieces so far and the bytes fed since; fails only on an unreadable byte, and always on one if pieces are not of length 0 |
| CreateTorrent.HashCountFits | crates/librqbit-patched/src/create_torrent_file.rs:149-151 | there are as many hashes as pieces if and only if "last file not empty" and "last piece partial" agree; too few exactly when the last piece is partial and the last file empty |
| CreateTorrent.CreatedPieceMatches | crates/librqbit-patched/src/create_torrent_file.rs:93-151 | every piece that has a hash matches it |
| CreateTorrent.CreatedThenChecked | crates/librqbit-patched/src/file_ops.rs:113-179 | checking the files a torrent was created from marks every piece as had, and fails exactly when the last file is empty and the content does not end at a piece boundary |
| Seeding.FullTrackerIsComplete | crates/librqbit-patched/src/chunk_tracker.rs:138-165 | a tracker created with all pieces had is finished, has all bytes, counts every file full and queues nothing, whatever is selected |
| Seeding.CreatedTorrentIsComplete | crates/librqbit-patched/src/torrent_state/initializing.rs:218-230 | creating a torrent, checking its files and tracking the result leaves nothing to download |
| Interleaving.Interleave.Next | crates/librqbit-patched/src/torrent_state/streaming.rs:82-90 | takes one item from the first iterator that has one and sends it to the back, dropping exhausted ones; the remaining work shrinks |
| Interleaving.TurnShrinks | crates/librqbit-patched/src/torrent_state/streaming.rs:82-90 | the measure decreases with every item, and the merge ends only when all iterators are exhausted |
| Interleaving.DrainIsColumns | crates/librqbit-patched/src/torrent_state/streaming.rs:71-100 | draining any number of iterators yields all first items in order, then all second items, and so on |
| Interleaving.DrainKeepsItems | crates/librqbit-patched/src/torrent_state/streaming.rs:71-100 | every item is yielded exactly once |
| Streaming.CurrentPieceHolds | crates/librqbit-patched/src/torrent_state/streaming.rs:38-40 | the current piece is the one holding the position, with the bytes left in it |
| Streaming.QueueIsWindow | crates/librqbit-patched/src/torrent_state/streaming.rs:42-49 | a stream asks, in order, for exactly the pieces with a byte in its 32 MiB window cut at the file end; at the very end also for the piece in which the file ends |
| Streaming.TorrentStreams.RegisterWaker | crates/librqbit-patched/src/torrent_state/streaming.rs:63-68 | stores the waker of a known stream, touches no other, and keeps every stream in agreement with its shared state |
| Streaming.TorrentStreams.WakeStreamsOnPieceCompleted | crates/librqbit-patched/src/torrent_state/streaming.rs:102-119 | wakes exactly the registered streams standing in the piece, and only those lose their waker; no stream moves |
| Streaming.StandsInPiece | crates/librqbit-patched/src/torrent_state/streaming.rs:102-119 | standing in a piece means the position lies in it, so a stream waiting for a piece is woken by its completion |
| Streaming.FileStream.constructor | crates/librqbit-patched/src/torrent_state/streaming.rs:338-360 | a new stream stands at 0, its shared state mirrors it, and no other stream is affected |
| Streaming.FileStream.SetPosition | crates/librqbit-patched/src/torrent_state/streaming.rs:377-385 | position and shared state move together; no other stream of the registry is affected |
| Streaming.FileStream.PollRead | crates/librqbit-patched/src/torrent_state/streaming.rs:166-233 | end of file gives nothing, a missing piece registers the waker and waits, otherwise the next bytes of the file up to the end of the had piece, the file or the room; fails only on an unreadable byte among them; the registry changes in this stream's entry only, and every other stream stays in agreement with its own |
| Streaming.FileStream.StartSeek | crates/librqbit-patched/src/torrent_state/streaming.rs:237-258 | moves to `s`, to the file's end plus `e`, or to the old position plus `o`, if that lies in the file and its length fits 64 signed bits, otherwise refuses and changes nothing; the registry changes in this stream's entry only, and every other stream stays in agreement with its own |
| Streaming.WrapsBelowZero | crates/librqbit-patched/src/torrent_state/streaming.rs:242-246 | a 64-bit sum that overflows wraps to a negative number, and so is refused |
| Streaming.StepKeepsFaithful | crates/librqbit-patched/src/torrent_state/streaming.rs:165-258 | reads, seeks and any change of the files that leaves the readable bytes of had pieces alone keep "delivered since the last seek" equal to the file, inside had pieces; which downloads make only such changes is `LiveDownloads.GuardExact` |
| Streaming.StreamsDeliverTheFile | crates/librqbit-patched/src/torrent_state/streaming.rs:165-258 | over every run of such steps a stream delivers only bytes of had pieces: the file from the last seek point to the position |
| StreamDownloads.BlockIsDownload | crates/librqbit-patched/src/file_ops.rs:301-352 | writing a block of a missing piece, or a first part of it, leaves the readable bytes of had pieces alone, in files stored in any length |
| StreamDownloads.BlockKeepsCheck | crates/librqbit-patched/src/torrent_state/live/mod.rs:1686-1695 | it does not change that another piece checks out |
| StreamDownloads.StepIsStreamStep | crates/librqbit-patched/src/torrent_state/live/mod.rs:1736-1746 | blocks of missing pieces, completions of pieces that check out, reads and seeks are steps of a stream's run and keep every had piece verified |
| StreamDownloads.UntouchedKeepsCheck | crates/librqbit-patched/src/file_ops.rs:301-352 | nor whether a piece checks out of which the block covers padding only |
| StreamDownloads.BlockGuardExact | crates/librqbit-patched/src/torrent_state/live/mod.rs:1686-1695 | a block keeps had pieces verified whatever it contains if and only if its piece is missing or it lies in padding |
| StreamDownloads.DeliveredIsVerified | crates/librqbit-patched/src/torrent_state/streaming.rs:165-233 | where had pieces check out and a stream has delivered the file, each byte delivered is the byte of the torrent at its place, in a had piece that checks out |
| StreamDownloads.CheckedStart | crates/librqbit-patched/src/file_ops.rs:76-182 | the pieces that the check of all files marks are verified if none of their files failed earlier in that check, as when everything can be read |
| LiveDownloads.TorrentStateLocked.ReserveNextNeededPiece | crates/librqbit-patched/src/torrent_state/live/mod.rs:1227-1273 | puts the piece that `NextIsFirst` describes in flight for the peer and clears its queue bit, or changes nothing |
| LiveDownloads.TorrentStateLocked.FindNextPiece | crates/librqbit-patched/src/torrent_state/live/mod.rs:1238-1263 | the search, through the streams and then file by file through the queue, computes that piece |
| LiveDownloads.NextIsFirst | crates/librqbit-patched/src/torrent_state/live/mod.rs:1242-1263 | if streams ask for a missing piece that is not in flight and that the peer has, the earliest such one is taken; otherwise the earliest one of the queue that the peer has; none exactly if there is neither. An overflow of the piece order ends the search only if it comes to that file |
| LiveDownloads.FirstQueuedIs | crates/librqbit-patched/src/torrent_state/live/mod.rs:1250-1258 | the search in the queue takes the first piece that the peer has among those of the first `k` files, or goes on behind them |
| LiveDownloads.TorrentStateLocked.FirstStreamed | crates/librqbit-patched/src/torrent_state/live/mod.rs:1242-1258 | the loop finds the first piece asked for by a stream that is missing, not in flight, and that the peer has |
| LiveDownloads.TorrentStateLocked.Steal | crates/librqbit-patched/src/torrent_state/live/mod.rs:1282-1320 | a piece in flight is expected from the stealing peer from now on |
| LiveDownloads.TorrentStateLocked.MayWrite | crates/librqbit-patched/src/torrent_state/live/mod.rs:1657-1682 | a block may be written exactly if its piece is in flight for that peer |
| LiveDownloads.StoreBlock | crates/librqbit-patched/src/torrent_state/live/mod.rs:1686-1692 | writing a block through `WriteChunk` is the write of a step of the download: at its begin in its piece, all of it, or a first part exactly if a write of the storage failed |
| LiveDownloads.TorrentStateLocked.ChunkStored | crates/librqbit-patched/src/torrent_state/live/mod.rs:1697-1725 | marks the chunk, and takes the piece out of flight exactly if that completes it |
| LiveDownloads.TorrentStateLocked.PieceChecked | crates/librqbit-patched/src/torrent_state/live/mod.rs:1736-1793 | a piece that checks out is marked and counted, without underflow, another one is put back |
| LiveDownloads.NextIsPiece | crates/librqbit-patched/src/torrent_state/live/mod.rs:1238-1263 | what is taken is a piece of the torrent that the peer has, and either one for a stream, missing and not in flight, or a queued one, which may be had |
| LiveDownloads.GuardExact | crates/librqbit-patched/src/torrent_state/live/mod.rs:1227-1793 | a step from a state where every piece in flight is missing and not being checked leads to such a state if and only if it does not reserve a had piece or one being checked, and does not complete a piece while another block of it is being written |
| LiveDownloads.RunningStays | crates/librqbit-patched/src/torrent_state/live/mod.rs:1227-1793 | every step, guarded or not, is one of the tracker's operations or leaves the tracker alone, and keeps its totals in sync |
| LiveDownloads.StepIsDiskStep | crates/librqbit-patched/src/torrent_state/live/mod.rs:1657-1746 | from a safe state every step writes blocks to missing pieces only, and marks only pieces that check out |
| LiveDownloads.PassedStay | crates/librqbit-patched/src/torrent_state/live/mod.rs:1728-1746 | between the check of a piece and its marking no block spoils it, from a safe state |
| LiveDownloads.RunsStayVerified | crates/librqbit-patched/src/torrent_state/live/mod.rs:1227-1793 | over every guarded run from an idle start every had piece checks out, and a stream has delivered the file from its last seek point to its position |
| LiveDownloads.DeliveredBytesAreVerified | crates/librqbit-patched/src/torrent_state/streaming.rs:165-258 | over such runs each byte delivered of a file that is not padding is the byte of the torrent at its place, in a had piece that checks out against its hash |
| LiveDownloads.WhenReservingIsSafe | crates/librqbit-patched/src/torrent_state/live/mod.rs:1238-1273 | with a disciplined queue, reserving meets the guard if no piece being checked is queued or wanted by a stream |
| LiveDownloads.SafeCompletionIsFirst | crates/librqbit-patched/src/torrent_state/live/mod.rs:783-793 | from a safe state completing a piece is its first completion, so the counters stay right if and only if no empty file lies inside it |
| FileTree.Build | crates/librqbit-patched/src/upnp_server_adapter.rs:137-199 | on the branch for several files: parents come before children and list them exactly once, folders are unique per parent and name and none is idle, each file with a usable path has exactly one leaf and the titles down to it spell the path |
| FileTree.BuildTree | crates/librqbit-patched/src/upnp_server_adapter.rs:109-199 | all branches: names of at most one component in all give a single node for the first file or the error that applies; a torrent name that is not text is an error; otherwise the tree of `Build` |
| FileTree.SingleExact | crates/librqbit-patched/src/upnp_server_adapter.rs:109-116 | the branch for a single node is taken if and only if no two components exist in all names |
| FileTree.PathIsName | crates/librqbit-patched/src/upnp_server_adapter.rs:159-162 | a file has a usable path exactly if all its components are text, and then the path spells them |
| FileTree.SingleFileIsTheOnlyOne | crates/librqbit-patched/src/upnp_server_adapter.rs:109-138 | when a single node is made, no file but the first has a name |
| FileTree.AddDir | crates/librqbit-patched/src/upnp_server_adapter.rs:180-195 | adding a folder that is not cached keeps the tree and the cache |
| FileTree.AddLeaf | crates/librqbit-patched/src/upnp_server_adapter.rs:165-178 | adding the leaf of the next file keeps the tree and the cache |
| FileTree.FolderPathsDiffer | crates/librqbit-patched/src/upnp_server_adapter.rs:180-195 | different folders have different paths |
| FileTree.FileIsFound | crates/librqbit-patched/src/upnp_server_adapter.rs:150-199 | every placed file has one leaf, reached by its path, with nothing below it |
| FileTree.IdRoundTrip | crates/librqbit-patched/src/upnp_server_adapter.rs:40-51 | decoding undoes encoding if and only if the torrent id is below 65535 and the node id below 2^48; then the low 16 bits are the torrent id plus one and the others the node id |
| ReadBuffer.ReadBuf.PrepareForRead | crates/librqbit-patched/src/read_buf.rs:29-44 | keeps the unparsed bytes, moved to the front, and leaves room for the bytes asked for |
| ReadBuffer.ReadBuf.ReadHandshake | crates/librqbit-patched/src/read_buf.rs:48-68 | the handshake succeeds if one read brings it whole; what follows stays unparsed; it is reported as a failed read if and only if the read failed, and then nothing changes |
| ReadBuffer.ReadBuf.Fill | crates/librqbit-patched/src/read_buf.rs:91-99 | one read appends to the unparsed bytes; there is always room; no bytes come exactly at the end of the stream, and a timeout loses nothing |
| ReadBuffer.ReadBuf.ReadMessage | crates/librqbit-patched/src/read_buf.rs:71-101 | while no read fails, returns what the deserializer says about the whole remaining stream, however it is cut, and consumes exactly that message; a failed read is reported if and only if one failed, which can only be while what has arrived is not enough, and loses nothing; a message that is there already is returned without reading |
| ReadBuffer.RunIsGreedyParse | crates/librqbit-patched/src/read_buf.rs:71-101 | reads return the messages of the greedy parse of the stream, one for each read that does not fail, until there are no more |
| ReadBuffer.GreedyIsPrefix | crates/librqbit-patched/src/read_buf.rs:71-101 | messages found so far stay the first ones however the stream continues |
| Bencode.ParseBencode | crates/orc-core/src/lib.rs:1921-2023 | the recursive and looping parser computes `Parse`, so it ends on every input, and on success the index is past the start and inside the input |
| Bencode.ParseList | crates/orc-core/src/lib.rs:1952-1969 | the loop over items collects exactly the items `ParseItems` defines, with its limits and errors |
| Bencode.ParseDict | crates/orc-core/src/lib.rs:1970-1993 | the same for key and value pairs; a key that is not a byte string is an error |
| BencodeRoundTrip.ParseEncoded | crates/orc-core/src/lib.rs:1921-2023 | where the input holds a printed value, parsing returns it and its end if it is within the limits, and fails otherwise, at any depth and position |
| BencodeRoundTrip.RoundTrip | crates/orc-core/src/lib.rs:1917-1919 | parsing undoes printing, whatever follows, exactly for values within the depth, item and length limits |
| BencodeRoundTrip.EncodingIsPrefixFree | crates/orc-core/src/lib.rs:1917-1919 | no printed value within the limits is a proper prefix of another |
| BencodeRoundTrip.IntParses | crates/orc-core/src/lib.rs:1933-1951 | a printed integer parses exactly if it fits 64 signed bits; the 20 digit limit shuts out none that fits |
| BencodeRoundTrip.BytesParse | crates/orc-core/src/lib.rs:1994-2020 | a printed byte string parses exactly up to 10 MiB |
| BencodeRoundTrip.ItemsParse | crates/orc-core/src/lib.rs:1952-1969 | a printed list of items parses exactly within the item limit, counting those before it |
| BencodeRoundTrip.EntriesParse | crates/orc-core/src/lib.rs:1970-1993 | the same for dictionary entries |
| BencodeGrammar.ParseIsReading | crates/orc-core/src/lib.rs:1921-2023 | on every input: parsing succeeds with a value and an end if and only if the bytes up to there read as that value, which is its printed form up to leading zeros, an optional sign of integers and any sign of zero, within the limits |
| BencodeGrammar.ParseI64Is | crates/orc-core/src/lib.rs:1933-1951 | bytes parse as a 64-bit integer if and only if they are its decimal digits after any zeros and a sign that fits |
| BencodeGrammar.ParseUsizeIs | crates/orc-core/src/lib.rs:1994-2007 | the same for the length of a string, which starts with a digit |
| BencodeGrammar.ParsingIsLocal | crates/orc-core/src/lib.rs:1921-2023 | what has been parsed once parses the same wherever these bytes stand |
| BencodeGrammar.PrintedIsReading | crates/orc-core/src/lib.rs:1917-1919 | the printed form of a value is one of its readings |
| PeerInfoReader.HandlerLocked.New | crates/librqbit-patched/src/peer_info_reader/mod.rs:80-95 | refuses more than 32 MiB; otherwise an empty buffer with no piece received |
| PeerInfoReader.HandlerLocked.PieceSize | crates/librqbit-patched/src/peer_info_reader/mod.rs:96-104 | the size of a piece is the length of its interval when the metadata is cut into chunks |
| PeerInfoReader.HandlerLocked.RecordPiece | crates/librqbit-patched/src/peer_info_reader/mod.rs:105-137 | wrong index, wrong length and repeats are refused without change; otherwise the piece is put in its place and the result says whether it was the last and whether the hash matches |
| PeerInfoReader.PieceInBuffer | crates/librqbit-patched/src/peer_info_reader/mod.rs:109 | every piece lies inside the buffer and its offset fits 32 bits |
| PeerInfoReader.OthersStay | crates/librqbit-patched/src/peer_info_reader/mod.rs:126-128 | recording a piece leaves every other recorded piece alone |
| PeerInfoReader.BufferHolds | crates/librqbit-patched/src/peer_info_reader/mod.rs:105-137 | after any deliveries the buffer holds every accepted piece at its place, and exactly those are marked |
| PeerInfoReader.BufferIsAssembly | crates/librqbit-patched/src/peer_info_reader/mod.rs:130-133 | when all pieces are there the buffer is their in-order concatenation |
| PeerInfoReader.ReportIsDetermined | crates/librqbit-patched/src/peer_info_reader/mod.rs:105-137 | true exactly on the first delivery of the last missing piece, if the concatenation has the expected hash |
| WriteThroughCache.WriteThroughCacheStorage.PReadExact | crates/librqbit-patched/src/storage/middleware/write_through_cache.rs:71-86 | a cached piece answers from memory, or refuses a range that leaves it, and becomes the most recently used; an uncached one is read from below and not cached |
| WriteThroughCache.WriteThroughCacheStorage.PWriteAll | crates/librqbit-patched/src/storage/middleware/write_through_cache.rs:88-104 | the piece enters or is refreshed, evicting the least recently used; the bytes go to the cache and, all of them or on an error a first part, to the files; the error comes exactly if the write below failed; a range leaving the piece is refused after the piece entered |
| WriteThroughCache.AccessOrder | crates/librqbit-patched/src/storage/middleware/write_through_cache.rs:95-97 | where every entry stands after a write to some piece |
| CacheOrder.OrderAfter | crates/librqbit-patched/src/storage/middleware/write_through_cache.rs:71-104 | a read of a cached piece and a write bring their piece to the front and keep the others in order; a read of an uncached piece leaves the order alone |
| CacheOrder.RunsEvictLeastRecent | crates/librqbit-patched/src/storage/middleware/write_through_cache.rs:71-104 | after any reads and writes the cached pieces are in the order of their last access, and every accessed piece that is not cached was last accessed before all of them, of which there are as many as fit |
| CacheOrder.CachedExactly | crates/librqbit-patched/src/storage/middleware/write_through_cache.rs:71-104 | a piece is cached if and only if it was accessed and fewer than `capacity` other pieces were since |
| WriteThroughCache.WriteOutcome | crates/librqbit-patched/src/storage/middleware/write_through_cache.rs:88-104 | when a write is refused and with which error: an unknown file, an offset behind the torrent, bytes that leave the piece of the first one; only then the files stay as they are |
| WriteThroughCache.ReadYourWrites | crates/librqbit-patched/src/storage/middleware/write_through_cache.rs:70-104 | what was written, even by a write that failed in the files, is what reading the same range returns |
| WriteThroughCache.WriteKeeps | crates/librqbit-patched/src/storage/middleware/write_through_cache.rs:88-104 | every write, failing or running past its file as it may, keeps the cached bytes whose last write reached the files equal to them, and those never written zero |
| WriteThroughCache.ReadKeeps | crates/librqbit-patched/src/storage/middleware/write_through_cache.rs:71-86 | so does a read |
| WriteThroughCache.RunsKeepCoherent | crates/librqbit-patched/src/storage/middleware/write_through_cache.rs:70-104 | so does every sequence of reads and writes, whatever fails or is evicted |
| WriteThroughCache.LandingRunsHaveNoStray | crates/librqbit-patched/src/storage/middleware/write_through_cache.rs:88-104 | while writes succeed inside their files, no cached byte differs from what was last written to the files at its place |
| WriteThroughCache.CachedByteIsRight | crates/librqbit-patched/src/storage/middleware/write_through_cache.rs:95-97 | a cached byte is the byte of the file if its last write since the piece entered reached it; where no write missed the file, if and only if it was written or is zero in the file |
| WriteThroughCache.ReadAgrees | crates/librqbit-patched/src/storage/middleware/write_through_cache.rs:71-86 | a read agrees with the files if the piece is not cached, is refused if it leaves a cached piece, and otherwise agrees if every byte was written since the piece entered; where no write missed the files, if and only if every byte was written or is zero |
| CachedCheck.ReadSees | crates/librqbit-patched/src/storage/middleware/write_through_cache.rs:71-86 | reads inside a file and a piece, as a check makes them, are answered as by a storage holding the files as seen through the cache, and do not change what is seen |
| CachedCheck.SeenPiece | crates/librqbit-patched/src/storage/middleware/write_through_cache.rs:71-86 | a piece holds the same bytes through the cache as in the files if and only if each of its bytes outside padding is seen as stored |
| CachedCheck.CachedCheckExact | crates/librqbit-patched/src/storage/middleware/write_through_cache.rs:71-97 | a piece that is not cached checks as in the files; a cached one without stray bytes does so, for every hash, if and only if each of its bytes outside padding was written since it entered the cache or is zero |
| Availability.TorrentRuntime.UpdatePieceAvailabilityFromPeers | crates/orc-core/src/lib.rs:1012-1032 | the peer's old pieces are given back, the new ones counted, and its progress is remembered, in whatever arithmetic pieces are computed from progress |
| Availability.TorrentRuntime.RemovePeerFromAvailability | crates/orc-core/src/lib.rs:1035-1045 | a known peer is forgotten and its pieces given back; the progress of all others stays |
| Availability.RemoveKeeps | crates/orc-core/src/lib.rs:1035-1045 | departures keep every counter equal to the number of cached peers having the piece, and no subtraction saturates |
| Availability.UpdateExact | crates/orc-core/src/lib.rs:1012-1032 | reports keep that if and only if fewer than 2^32 - 1 other peers have the first piece, when this one has it |
| Availability.CountersDescend | crates/orc-core/src/lib.rs:1023-1030 | exact counters never increase from a piece to a later one |
| Availability.CountersStayExact | crates/orc-core/src/lib.rs:1012-1045 | both hold after any sequence of reports and departures |
| RowSnapshot.MinAvailability | crates/orc-core/src/lib.rs:1085-1098 | the least availability of the missing pieces of a bin, 0 if none is known |
| RowSnapshot.PiecesBins | crates/orc-core/src/lib.rs:1047-1106 | 200 bins; each shows the number of its pieces, the share had, and the least availability of the missing ones, the largest number if none is missing |
| RowSnapshot.CompletedIsShare | crates/orc-core/src/lib.rs:1049-1059 | the number of completed pieces is the share of the downloaded bytes, at most all, rounded down |
| RowSnapshot.RowIsComplete | crates/orc-core/src/lib.rs:1056-1077 | the bins share out all pieces and all completed pieces, none twice |
| RowSnapshot.BinShowsLastPiece | crates/orc-core/src/lib.rs:1082-1099 | with exact counters an unfinished bin shows how many peers have its last piece |
| Witnesses.UnselectedIsQueued | crates/librqbit-patched/src/chunk_tracker.rs:235-250 | from a tracker in sync with nothing queued, putting back an unselected piece queues it |
| Witnesses.UnreservedStaysQueued | crates/librqbit-patched/src/chunk_tracker.rs:252-262 | completing a piece that was not reserved leaves it queued and had |
| Witnesses.ReselectedStaysQueued | crates/librqbit-patched/src/chunk_tracker.rs:359-361 | choosing a file again while its piece is in flight, then completing the piece, leaves it queued and had |
| Witnesses.EmptyFileLosesCount | crates/librqbit-patched/src/torrent_state/live/mod.rs:783-793 | files of 1, 0 and 1 bytes in one piece: completing it leaves the counter of the last file at 0 |
| Witnesses.EmptyLastFileLosesHash | crates/librqbit-patched/src/create_torrent_file.rs:149-151 | files of 1 and 0 bytes with pieces of 2: no hash for the only piece |
| Witnesses.FullLastPieceAddsHash | crates/librqbit-patched/src/create_torrent_file.rs:149-151 | a file of 2 bytes with pieces of 2: two hashes for one piece |
| Witnesses.FailedFileFailsGoodPiece | crates/librqbit-patched/src/file_ops.rs:141-144 | a file of two one-byte pieces whose first byte is unreadable: single check and pass contradict each other on the second piece, both ways |
| Witnesses.CachedNeighbourIsZero | crates/librqbit-patched/src/storage/middleware/write_through_cache.rs:95-97 | after writing the first byte of a piece to a cache in agreement with the files, its second byte reads as 0 although the file holds a 6 |
| Witnesses.FailedWriteIsRead | crates/librqbit-patched/src/storage/middleware/write_through_cache.rs:98-103 | after a write that failed in the files, the cache answers with a byte that was never stored |
| Witnesses.SmallestOverflows | crates/librqbit-patched/src/file_info.rs:20-21 | the piece order overflows on the empty range at 1, and torrent id 65535 does not decode |
| Witnesses.EvictionSpoilsPiece | crates/librqbit-patched/src/storage/middleware/write_through_cache.rs:95-97 | a piece of two bytes whose entry is evicted between them: both bytes reach the file, but through the cache the piece reads as 0 and the second byte |
| LiveWitnesses.ReselectionOverwritesHadPiece | crates/librqbit-patched/src/torrent_state/live/mod.rs:1250-1271 | a run from the start of a download: reserve, choose the file again, complete; a second peer is given the had piece and overwrites it |
| LiveWitnesses.StreamOverwritesHadPiece | crates/librqbit-patched/src/torrent_state/live/mod.rs:1242-1249 | a run in which a second peer is given a piece for a stream while it is being checked, and overwrites it when it is had |
| LiveWitnesses.PieceCountedTwice | crates/librqbit-patched/src/chunk_tracker.rs:411-424 | a run in which a piece of one byte is completed twice, and its file counts two bytes |

## Left out

Contracts that are weaker than, or cover less than, the original:

- ReadBuffer.ReadBuf.ReadMessage: the deserializer is any function on bytes that is stable under more input; the peer wire format itself comes from another crate.
- ChunkTracking.ChunkTracker.MarkChunkDownloaded: the panic on blocks of 2^32 bytes or more is not modelled; such a block is refused as not being a chunk, and the only caller has refused it before (`live/mod.rs:1600-1604`).
- ChunkTracking.ChunkTracker.UpdateOnlyFiles: the errors for an exhausted piece iterator and for a shift that does not fit 32 bits are not modelled as results because they are proved unreachable.
- FileOperations.FileOps.WriteChunk: a write that fails is taken to have stored a first part of its data; a storage that fails in another way is not covered.
- CreateTorrent.CreatePieceHashes: walking the directory, the choice of a piece length and the rest of the metadata are not modelled.
- CreateTorrent.HashFile: with pieces of length 0 it says only that a failure comes from an unreadable byte, because the buffered reader may fill its buffer for a read of no bytes and fail.
- LiveDownloads.DeliveredBytesAreVerified: not for padding files, which a stream cannot read from the file system.
- RowSnapshot.PiecesBins: ratios are exact real numbers, without the rounding of 64-bit floats.
- Availability.CountersStayExact: for a fixed number of pieces, since the estimate is set once when the runtime record is created; resizing is in the update itself but not in the runs.
- Streaming.FileStream.StartSeek: 64-bit sums wrap around, as in a build without overflow checks; with them a sum of more than 2^63 - 1 panics where it is refused here.
- BencodeGrammar.ParseIsReading: says when parsing fails, but not with which of the error messages; these are the ones of `Bencode.Parse`.

Not modelled:

- Machine arithmetic of byte totals and chunk indices in the tracker: they are unbounded here, so torrents of 2^64 bytes or 2^32 chunks are not covered.
- Sharing and layout of bit vectors and buffers: fields are reassigned as values, so aliasing between slices is not captured. Locks and atomics: each operation is one step.
- Which slow piece is stolen, choking, pausing, and the bookkeeping of requests: in `LiveDownloads` any piece that no one is writing can be stolen at any time, and a peer may ask for any piece it has.
- Several checks of one piece at a time count as one, and marking a piece and counting it in its files are one step.
- The shuffle of stream queues: the merge is proved for any list of iterators, hence for any order of them.
- `is_chunk_ready_to_upload`, `get_remaining_bytes` and other accessors: one-line reads.
- The rest of the row snapshot and of the UPnP browsing answers: copying of fields.
- Resume data: the sampled check of stored bitfields acts on errors only.
- Searching the raw info dictionary for its hash (`crates/orc-core/src/lib.rs:1239-1278`), transfer rates, formatting and remaining-time estimates.
- The lifecycle of managed torrents, peers, trackers, DHT, HTTP, persistence, file system calls, and the user interfaces: input and output, or code of other libraries.
