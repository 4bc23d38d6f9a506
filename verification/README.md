# Verification of the torrent node's core

A Dafny model of the parts of the torrent node, and of the two libraries built into it, whose correctness is hardest to
see from the code. `dafny verify dfyconfig.toml` checks everything.

**LZ4 block codec** (`Lz4Format`, `Lz4Grammar`, `Lz4Memory`, `Lz4Decoder`, `Lz4Parse`, `Lz4Search`, `Lz4Compressor`,
`Compress`, `Integers`). The format is defined as sequences of literals and overlapping matches. The decoder that
copies in 8-byte strides is proved equal to a value-level decoder with the code's own tests and error positions, and
that one to accept exactly the encodings of admissible blocks. The compressor, with its lossy hash table, is proved to
emit an encoding of the genuine parse of its input whose matches are the first that the search finds. Together they
give the round trip of `compress` and `decompress` for every value up to the codec's limit, for any hash functions.

**LZ4 frame decoder** (`Lz4Frame`, `Lz4FrameFormat`, `Lz4FrameDecoder`, `Lz4FrameRuns`). A decoder that has the whole
frame before it serves as the reference; it takes exactly what is written by the format. For the resumable one, every
stage states what content its context still owes for every possible continuation of the input, so that cutting input
and output anywhere cannot change the content.

**libev core** (`HeapOrder`, `EvWatcher`, `TimerHeap`, `TimerTable`, `PendingOrder`, `PendingQueues`, `TimerExpiry`,
`EvTimers`, `PollTable`, `FdEvents`). The 4-ary timer heap with back indices, the pending queues, a round of timer
expiry, and the change list with the poll table, all in place, each against functions on values about which the
properties are proved. Callbacks are given as scripts of feeds and clears. Time is `real`.

**The node's own protocol.** `ChainNumbering`, `ChainLinks`, `ChainLoading`, `ChainReload` and `BlockChain` cover block
numbering; `Database`, `SavedHeaders` and `ChainFollowing` what is on disk, what a restart makes of it, and how a chain
grows after that; `BlockFeed`, `SyncRound` and `SyncRuns` the fetch, validate, archive, add, announce and save loop;
`WorkerMain` and `CrashRestart` a node over its whole life as a machine of events, crashes and failing writes among
them, and `LiveNode` the classes whose methods make those events happen; `Segments`, `Download` and `RangeRequest` the
segmented download; `BlockFile`, `BlockDump` and `BlockArchive` the append-only file, what is written in it, and the
places of blocks in it; `LruHeap` the cache index. The network, the order in which the database lists headers, failing
writes and the scheduling of threads are parameters, so the statements hold for all of them.

## What the code does that its reader may not expect

- On a chain that still consists of the genesis block alone, `addBlock` accepts a block with an unknown parent as
  block 1 (src/BlockChain.cpp:55 leaves `bh` at the block just numbered, so the last branch at
  src/BlockChain.cpp:69 is never taken). More generally a block whose walk ends at an unknown parent, or comes
  back to itself, is accepted when the numbers happen to fit; `ForkOfTheRightLengthIsAccepted` shows one on a chain of
  two blocks. An accepted block leaves a linked chain linked if and only if its walk ended at a numbered block
  (`AddKeepsLinksExactlyWhenAnchored`).
- A failed `addBlock` leaves temporary numbers behind when the parent of the new block is filed but unnumbered
  (`FailedAddNumbersTheFork`).
- A failed save of a header is caught by the outer loop (src/SyncImpl.cpp:342-346), and later blocks are saved over the
  hole. A restart then fails, or, exactly when the parent of the last header is missing, takes the last block for
  block 1 (`LoadOfWhatWasSaved`). When nothing is committed yet, and only then, the worker may commit that
  (`MisledExactlyWhenWrong`, `AMisledNodeCommitsTheWrongBlock`); a worker that has commits goes on with the
  right blocks although the chain it is fed from is wrong (`CommitsAreTheChain`).
- A block whose write throws is gone from the worker's queue (src/Workers/WorkerMain.cpp:59-109). Before the first
  commit the next block takes its place (`FirstCommitMayBeBlockTwo`); after it the worker refuses everything until the
  next start (`StuckUntilRestart`).
- Resetting a frame decoder leaves the remaining size of the frame it was in, and a frame that does not give its own
  size is refused after that (`LeftoverRefusesUnsizedFrames`).
- A frame whose header gives a content size of 0 may have any content, and its end mark may carry the flag of an
  uncompressed block (`FrameIsWritten`).
- The fourth comparison in the slow path of `downheap` (3rdParty/libev-4.25/ev.c:2285) can never be reached with
  effect: that path is taken only when the fourth child is missing.
- The LZ4 decoder accepts a zero offset, which the block format forbids, and reads it as zero bytes; it ignores the
  low half of the last token.
- `decompress` hands back a buffer of the announced size when the block does not decode.

## Model

| member | source | states |
|---|---|---|
| `Lz4Format.ContinuesIsCopyMatch` | 3rdParty/lz4/lz4.c:1208-1235 | A buffer in which every byte equals the byte `offset` before it is exactly what the naive byte-by-byte overlapping copy produces; the strided copies are measured against this |
| `Lz4Grammar.AcceptsExactlyTheFormat` | 3rdParty/lz4/lz4.c:1126-1160 | The safe decoder accepts a byte string if and only if it is the encoding of some block that obeys the parsing restrictions and fits the output buffer |
| `Lz4Grammar.AcceptedMeansWhatItEncodes` | 3rdParty/lz4/lz4.c:1126-1247 | What it outputs is the meaning of that block: literals and byte-by-byte overlapping matches, zero offsets reading as zero bytes |
| `Lz4Grammar.EncodedDecodes` | 3rdParty/lz4/lz4.c:1126-1236 | Encoded sequences decode to their meaning behind any output already produced |
| `Lz4Grammar.DecodedIsEncoded` | 3rdParty/lz4/lz4.c:1126-1236 | Whatever decodes is the encoding of admissible sequences, which are returned |
| `Lz4Grammar.BadOffsetIsRefused` | 3rdParty/lz4/lz4.c:1164-1167 | An offset that reaches in front of the output is refused with the error position right behind it |
| `Lz4Grammar.LongMatchIsRefused` | 3rdParty/lz4/lz4.c:1208-1224 | A match that would leave fewer than five bytes of output is refused with the error position behind its length |
| `Lz4Grammar.EndlessLiteralsAreRefused` | 3rdParty/lz4/lz4.c:1132-1154 | A literal length that never ends is refused 15 bytes before the end of the input |
| `Lz4Grammar.EndlessMatchIsRefused` | 3rdParty/lz4/lz4.c:1170-1180 | A match length that never ends is refused with 4 bytes left |
| `Lz4Memory.WildCopyFrom` | 3rdParty/lz4/lz4.c:248-256 | 8-byte strides over literals produce exactly the requested bytes and write fewer than 8 beyond them |
| `Lz4Decoder.WildCopyWithin` | 3rdParty/lz4/lz4.c:248-256 | Overlapping 8-byte strides inside the output keep the distance of source and target for every byte written and stay inside the buffer |
| `Lz4Decoder.StrideIsPeriod` | 3rdParty/lz4/lz4.c:1114-1115 | The dec32/dec64 tables leave the source a whole number of periods, and at least 8 bytes, behind the target for every offset below 8 |
| `Lz4Decoder.FixUpContinues` | 3rdParty/lz4/lz4.c:1210-1219 | The first 8 bytes after the table fix-up continue the match for every offset from 0 to 7 |
| `Lz4Decoder.StridedCopyContinues` | 3rdParty/lz4/lz4.c:1220-1234 | Copying on with the stride of the tables continues the match with its own offset |
| `Lz4Decoder.CopyMatchStrided` | 3rdParty/lz4/lz4.c:1208-1235 | The whole match copy, near the end of the buffer and far from it, equals the naive copy, fails exactly when the last five bytes would be overwritten, and stays inside the buffer |
| `Lz4Decoder.ReadLiteralLength` | 3rdParty/lz4/lz4.c:1132-1139 | The length bytes are read as the format defines them, with the stop 15 bytes before the end of the input that the code has |
| `Lz4Decoder.DecompressSafe` | 3rdParty/lz4/lz4.c:1088-1253 | LZ4_decompress_safe returns exactly the result of the value-level decoder, the error position included, and its output array holds that output |
| `Lz4Compressor.CommonIsExact` | 3rdParty/lz4/lz4.c:350-365 | The bounded common-prefix length is maximal: the bytes match up to it and the limit is reached or the next bytes differ |
| `Lz4Compressor.Count` | 3rdParty/lz4/lz4.c:350-365 | LZ4_count, by 8, 4, 2 and 1 bytes, computes exactly the common-prefix length |
| `Lz4Compressor.PutPositionOnHash` | 3rdParty/lz4/lz4.c:426-434 | An entry stored as 16 or 32 bits reads back untruncated, and every entry stays before the next position to be looked up |
| `Lz4Compressor.FindMatch` | 3rdParty/lz4/lz4.c:518-545 | At every position of the skip schedule before the one it stops at, the entry in the bucket is more than 65535 back or differs in the four bytes; it stops where neither is the case, with that entry as the match, or without a match where the next position is less than 12 bytes from the end. The entry is the last position entered into the bucket |
| `Lz4Compressor.CatchUp` | 3rdParty/lz4/lz4.c:547-548 | Extending backwards keeps the offset and the match, never crosses the literals already emitted, and stops only where it must |
| `Lz4Compressor.EncodeMatch` | 3rdParty/lz4/lz4.c:570-605 | Writes offset and match length for the longest match, with the 4-byte stores of 0xFF inside the buffer |
| `Lz4Compressor.EmitSequence` | 3rdParty/lz4/lz4.c:550-607 | One sequence extends a genuine parse of the input by exactly the bytes of its encoding, and its match is maximal in both directions |
| `Lz4Compressor.CompressSequences` | 3rdParty/lz4/lz4.c:508-633 | The main loop keeps a genuine parse (offsets 1..65535, lengths of at least 4, starting at least 12 and ending at least 5 bytes before the end) whose matches are all maximal in both directions and all the first ones found, and ends only when there is no further one |
| `Lz4Compressor.CompressGeneric` | 3rdParty/lz4/lz4.c:458-655 | Fails exactly for unsupported sizes; otherwise writes an encoding of the genuine parse that the hash function, the table type and the acceleration determine, in at most n + n/255 + 2 bytes, without any output check |
| `Lz4Compressor.CompressDefault` | 3rdParty/lz4/lz4.c:658-699 | Never fails up to LZ4_MAX_INPUT_SIZE, with 16-bit entries below 65547 bytes and 32-bit entries above, whatever the hash functions are; n >= 14 equal bytes become exactly 10 bytes, and (n - 25)/255 + 1 more from n = 25 on |
| `Lz4Search.HoldsMore` | 3rdParty/lz4/lz4.c:426-434 | Entering a position: a bucket then holds the last position entered into it, 0 while there is none |
| `Lz4Search.FirstTriesAreAdjacent` | 3rdParty/lz4/lz4.c:518-527 | With the default acceleration the first 66 positions of a search are adjacent, and then the steps begin to grow |
| `Lz4Search.OneByteRepeated` | 3rdParty/lz4/lz4.c:508-633 | A byte repeated 14 times or more is parsed into one literal, one match of all but the last five of the rest, and these, for any hash function and acceleration |
| `Lz4Parse.SequenceLayout` | 3rdParty/lz4/lz4.c:550-605 | The bytes of a sequence in numbers: halves of the token, runs of 255, literals, offset low byte first |
| `Lz4Parse.OneSequenceIsAcceptable` | 3rdParty/lz4/lz4.c:1144-1224 | When a block of one sequence is accepted, in numbers: 12 and 5 bytes of room, offset within the output, at least 8 bytes of input behind the literals and 5 behind a long match |
| `Lz4Parse.ParsedMore` | 3rdParty/lz4/lz4.c:550-607 | Appending a genuine sequence keeps the meaning of the parse equal to the input consumed, and the size bound |
| `Lz4Parse.SequenceSize` | 3rdParty/lz4/lz4.c:550-605 | A sequence takes at most 256/255 of the bytes it stands for, which is where the size bound comes from |
| `Lz4Parse.CompressionDecodes` | 3rdParty/lz4/lz4.c:458-655 | Every encoding of a genuine parse of an input is accepted by the decoder and decodes to that input |
| `Compress.Compress` | src/utils/compress.cpp:34-63 | compress returns nothing for an empty or refused value and otherwise the 32-bit size in front of a compression; n >= 14 equal bytes become exactly 14 bytes, and (n - 25)/255 + 1 more from n = 25 on |
| `Compress.Decompress` | src/utils/compress.cpp:80-104 | For any string: decompress yields the decoded block when as many bytes as the int conversion of their number leaves decode into a buffer of the stored size, and otherwise a buffer of that size |
| `Compress.PackedUnpacks` | src/utils/compress.cpp:34-104 | Whatever compress produces is unpacked to the bytes that were compressed |
| `Compress.RoundTrip` | src/utils/compress.cpp:106-116 | decompress(compress(v)) == v if and only if v is no longer than LZ4_MAX_INPUT_SIZE, whatever the hash functions are |
| `Lz4FrameFormat.WrittenBodyParses` | 3rdParty/lz4/lz4frame.c:1143-1382 | Blocks, end mark and checksum written by the format parse back to the content of the blocks, whatever was hashed before |
| `Lz4FrameFormat.WrittenFrameParses` | 3rdParty/lz4/lz4frame.c:838-915 | Header bytes for any checksum flag, size id and content size (none, 0 or the right one), blocks, end mark with or without the flag for uncompressed blocks, and checksum: a frame with the content of its blocks |
| `Lz4FrameFormat.FrameIsWritten` | 3rdParty/lz4/lz4frame.c:1059-1468 | And the converse: whatever is taken for a frame was written like that, and its content is that of its blocks |
| `Lz4FrameFormat.ParsedBodyIsWritten` | 3rdParty/lz4/lz4frame.c:1136-1382 | A body that is taken consists of valid blocks, an end mark and the checksum of exactly their content, and the remaining size is theirs |
| `Lz4FrameFormat.WrittenHeader` | 3rdParty/lz4/lz4frame.c:225-239 | Magic bytes, flags with version 1, a size id from 4 to 7, the content size and the second byte of the digest make a valid header that gives its parameters back: 64 KB, 256 KB, 1 MB or 4 MB per block |
| `Lz4FrameFormat.HeaderIsWritten` | 3rdParty/lz4/lz4frame.c:862-902 | Every valid header of independent blocks is written like that |
| `Lz4Frame.HeaderIsLocal` | 3rdParty/lz4/lz4frame.c:838-915 | Whether a header is valid depends only on its own 7 or 15 bytes |
| `Lz4Frame.LeftoverRefusesUnsizedFrames` | 3rdParty/lz4/lz4frame.c:909-910 | A context that a reset left with a remaining size reads a valid frame as what it is if and only if its header gives a content size, and any other as no frame |
| `Lz4Frame.EmptyFrameIsRefusedAfterALeftover` | 3rdParty/lz4/lz4frame.c:1341-1342 | A valid frame, the empty one, that a context with a remaining size of 1 refuses |
| `Lz4FrameDecoder.Dctx.DecodeHeader` | 3rdParty/lz4/lz4frame.c:838-915 | From any context: accepts exactly the headers as they are written, keeps an incomplete one, for which it looks at the magic bytes and the flags only, together with the size it announces, and sets up the frame, the remaining size only when the header gives one |
| `Lz4FrameDecoder.Dctx.StageGetHeader` | 3rdParty/lz4/lz4frame.c:1088-1116 | A header handed over whole or in pieces leaves the same content owed |
| `Lz4FrameDecoder.Dctx.StageCopyDirect` | 3rdParty/lz4/lz4frame.c:1189-1213 | An uncompressed block may be copied in any pieces; checksum and remaining size follow |
| `Lz4FrameDecoder.Dctx.StageStoreCBlock` | 3rdParty/lz4/lz4frame.c:1226-1247 | A compressed block collected in pieces is decoded like one handed over whole |
| `Lz4FrameDecoder.Dctx.StageIntoTmp` | 3rdParty/lz4/lz4frame.c:1276-1315 | A block decoded into the temporary buffer is owed to the output |
| `Lz4FrameDecoder.Dctx.StageFlushOut` | 3rdParty/lz4/lz4frame.c:1317-1337 | Flushing in any pieces hands out exactly the decoded block |
| `Lz4FrameDecoder.Dctx.StageGetSuffix` | 3rdParty/lz4/lz4frame.c:1339-1382 | The frame ends exactly with complete content and, when there is one, a matching checksum |
| `Lz4FrameDecoder.Dctx.Decompress` | 3rdParty/lz4/lz4frame.c:1059-1468 | One call, on any input: what the context stood for before is what it wrote followed by what it stands for now; it fails only where no valid frame is; 0 is returned exactly at a frame end; otherwise all input or all room is used up |
| `Lz4FrameDecoder.Dctx.GetFrameInfo` | 3rdParty/lz4/lz4frame.c:933-970 | At the beginning of a frame it accepts exactly a whole valid header, tells how long that is, and leaves the context owing what it owed; within a header it fails and changes nothing; after it, it reads nothing |
| `Lz4FrameRuns.RestingNeedsInput` | 3rdParty/lz4/lz4frame.c:1059-1468 | Between calls a context never stands for a frame that is already complete, so no other hint is 0 |
| `Lz4FrameRuns.FeedInPieces` | 3rdParty/lz4/lz4frame.c:1059-1468 | From any context at the start of a frame and however input and room are split across calls: a valid frame that the context takes gives the same content, 0 is returned exactly when all of it has been read, and enough calls with some input and some room always finish; a failure means that it is no valid frame or not taken |
| `Lz4FrameRuns.ResetAndFeed` | 3rdParty/lz4/lz4frame.c:801-804 | After a reset in the middle of anything a valid frame is decoded, in any pieces, if and only if no remaining size was left over or the frame gives its own |
| `Lz4FrameDecoder.HintStaysInside` | 3rdParty/lz4/lz4frame.c:1059-1468 | The hint of a context between calls is positive and never more than what is left of the frame |
| `Lz4FrameRuns.FeedByHints` | 3rdParty/lz4/lz4frame.c:1059-1468 | Feeding each call exactly what the one before asked for reads a frame out of any longer stream to its last byte and no further, with any room |
| `Lz4FrameRuns.GivenUpFrameSpoilsTheNext` | 3rdParty/lz4/lz4frame.c:801-804 | The same input by the calls of the interface: a frame of one byte is given up after its header, the context is reset, and the empty frame, which is valid, is not decoded |
| `HeapOrder.ParentAndChildren` | 3rdParty/libev-4.25/ev.c:2254-2257 | HPARENT, with division truncating towards zero, is the inverse of the four children and maps the root to itself |
| `HeapOrder.UpHeapOrders` | 3rdParty/libev-4.25/ev.c:2340-2359 | upheap restores the 4-ary heap order when only the parent edge of one cell is wrong |
| `HeapOrder.DownHeapOrders` | 3rdParty/libev-4.25/ev.c:2260-2301 | downheap restores it when only the child edges of one cell are wrong |
| `HeapOrder.AdjustHeapOrders` | 3rdParty/libev-4.25/ev.c:2362-2369 | adjustheap restores it after any change of one cell |
| `HeapOrder.UpHeapReorders` | 3rdParty/libev-4.25/ev.c:2340-2359 | upheap only permutes the live cells |
| `HeapOrder.RootIsLeast` | 3rdParty/libev-4.25/ev.c:2252-2257 | In heap order the root is least |
| `TimerHeap.UpHeap` | 3rdParty/libev-4.25/ev.c:2340-2359 | The in-place hole algorithm equals the swapping one and every watcher ends up with the index of its cell |
| `TimerHeap.DownHeap` | 3rdParty/libev-4.25/ev.c:2260-2301 | The same away from the root, fast and slow path |
| `TimerHeap.AdjustHeap` | 3rdParty/libev-4.25/ev.c:2362-2369 | The same for the choice between the two |
| `TimerHeap.Reheap` | 3rdParty/libev-4.25/ev.c:2371-2381 | Builds a heap of the same watchers, indices included, from any array |
| `TimerTable.Table.Insert` | 3rdParty/libev-4.25/ev.c:3926-3931 | Adds exactly one watcher; heap order, back indices and cached times are kept |
| `TimerTable.Table.Withdraw` | 3rdParty/libev-4.25/ev.c:3948-3964 | Removes exactly one watcher from any place in the heap and keeps the same |
| `TimerTable.Table.Retime` | 3rdParty/libev-4.25/ev.c:3979-3984 | Moves one watcher to a new time and keeps the same |
| `TimerTable.Table.ActiveByIndex` | 3rdParty/libev-4.25/ev.c:3914-3967 | A watcher is in the heap exactly while its active field is not zero |
| `TimerTable.Table.RootIsDueFirst` | 3rdParty/libev-4.25/ev.c:3360-3364 | The root is an active watcher whose time is no later than any other active one |
| `EvTimers.Loop.TimerStart` | 3rdParty/libev-4.25/ev.c:3913-3936 | Over any state: the set of timers grows by the one started, its time counts from now, an active one is left alone |
| `EvTimers.Loop.TimerStop` | 3rdParty/libev-4.25/ev.c:3938-3967 | The set shrinks by the one stopped, whose remaining time is stored and whose pending event is cleared |
| `EvTimers.Loop.TimerAgain` | 3rdParty/libev-4.25/ev.c:3969-3995 | A repeating timer is active and due one interval from now, any other is stopped |
| `EvTimers.Loop.ExpireAll` | 3rdParty/libev-4.25/ev.c:3360-3386 | Afterwards no timer is due; exactly the timers due before were rescheduled or stopped, once each, in the order of their times: a repeating one is due at its time plus its interval, or now if that is past; a one-shot one is inactive with its time less now; all others are as they were |
| `EvTimers.Loop.TimersReify` | 3rdParty/libev-4.25/ev.c:3354-3390 | The whole of timers_reify: no active timer is due, each expired one was fed once and has the time stated for ExpireAll, and the pending queues are the reverse feed of the expired ones |
| `EvTimers.Loop.ReifyAndInvoke` | 3rdParty/libev-4.25/ev.c:3710-3726 | timers_reify and ev_invoke_pending together, whatever was pending: every timer due on entry is invoked, no timer twice, none stays due or pending, all have the times stated for ExpireAll; higher priorities come first, and within one priority the due timers that were not pending, or that do not repeat, come first, each with EV_TIMER alone and earliest first |
| `TimerExpiry.OneMoreExpired` | 3rdParty/libev-4.25/ev.c:3364-3384 | Expiring the root extends the record of a round: who was due, new times, order and no repetition |
| `TimerExpiry.AllExpired` | 3rdParty/libev-4.25/ev.c:3360-3386 | When nothing is due any more the timers fed are exactly those that were due on entry |
| `TimerExpiry.EarliestIsInvokedFirst` | 3rdParty/libev-4.25/ev.c:2020-2033 | The reverse feed and the last-in-first-out queues cancel, for any expired timers and any queues: those of one priority that were not pending are invoked earliest first, before what was waiting there |
| `TimerExpiry.StopsUnqueue` | 3rdParty/libev-4.25/ev.c:3380-3381 | Stopping the expired one-shot timers makes exactly them not pending, so that they count among those |
| `PendingOrder.ApplyHasEffect` | 3rdParty/libev-4.25/ev.c:2002-2018 | Feeding ORs the events of a pending watcher or makes it pending; clearing removes exactly that watcher; each watcher keeps one slot in the queue of its priority |
| `PendingOrder.ApplyStores` | 3rdParty/libev-4.25/ev.c:2007-2015 | The index stored in a watcher is the place of its slot |
| `PendingOrder.PopIsDue` | 3rdParty/libev-4.25/ev.c:3316-3322 | The slot taken belongs to a watcher of the highest priority pending, with all events fed to it |
| `PendingOrder.RunIsScheduled` | 3rdParty/libev-4.25/ev.c:3308-3327 | Whatever callbacks feed or clear, every invocation is of a watcher of the highest priority then pending, with the events it then has |
| `PendingOrder.QuietScheduleInvokesEachOnce` | 3rdParty/libev-4.25/ev.c:3308-3327 | With callbacks that do neither, each pending watcher is invoked once with the OR of its events |
| `PendingOrder.QuietRunUnwinds` | 3rdParty/libev-4.25/ev.c:3308-3327 | And the order is: priorities downwards, last fed first |
| `PendingOrder.ReverseFeedKeepsOrder` | 3rdParty/libev-4.25/ev.c:2027-2033 | Feeding any list of different watchers backwards: those that were not queued come out in the order of the list, those that were keep their place with the event added |
| `PendingQueues.Queues.FeedEvent` | 3rdParty/libev-4.25/ev.c:2000-2018 | The in-place queues follow the value-level feed and pendingpri is raised |
| `PendingQueues.Queues.ClearPending` | 3rdParty/libev-4.25/ev.c:3823-3838 | The in-place clear follows the value-level one and returns the events that were pending |
| `PendingQueues.Queues.InvokePending` | 3rdParty/libev-4.25/ev.c:3306-3327 | ev_invoke_pending with pendingpri raised by callbacks performs exactly the value-level run and leaves every queue empty and every index zero |
| `PollTable.Backend.Modify` | 3rdParty/libev-4.25/ev_poll.c:52-87 | polls lists each descriptor with a non-empty mask once, with that mask, and pollidxs is its inverse, before and after |
| `PollTable.AllocateEntry` | 3rdParty/libev-4.25/ev_poll.c:64-69 | A new entry at the end keeps the tables inverse |
| `PollTable.RemoveEntry` | 3rdParty/libev-4.25/ev_poll.c:77-86 | Removal by moving the last entry keeps them inverse |
| `FdEvents.Loop.FdChange` | 3rdParty/libev-4.25/ev.c:2140-2154 | A descriptor is in the change list once, exactly while it has a reify flag |
| `FdEvents.Loop.IoStart` | 3rdParty/libev-4.25/ev.c:3866-3891 | Puts the watcher in front of its list and flags only its descriptor |
| `FdEvents.Loop.IoStop` | 3rdParty/libev-4.25/ev.c:3893-3911 | Takes out exactly that watcher, flags its descriptor and clears its pending event, active or not |
| `FdEvents.Loop.FdReify` | 3rdParty/libev-4.25/ev.c:2079-2138 | Afterwards no change is pending and every descriptor was reported with the union of its watchers |
| `FdEvents.Loop.KernelWatchesWhatIsWanted` | 3rdParty/libev-4.25/ev.c:2111-2137 | After a reify a descriptor is polled for an event if and only if an active watcher wants it |
| `FdEvents.Loop.PolledOnce` | 3rdParty/libev-4.25/ev_poll.c:52-87 | No descriptor is polled twice |
| `ChainNumbering.MarkedNumbers` | src/BlockChain.cpp:47-51 | The temporary numbers are the places in the walk, and touch nothing else |
| `ChainNumbering.NumberedNumbers` | src/BlockChain.cpp:62-67 | The final numbers count up from the end of the walk, and touch nothing else |
| `ChainLinks.WalkIsPath` | src/BlockChain.cpp:45-58 | The walk goes from parent to parent and ends at a numbered block, at itself, at an unknown parent or at an empty one |
| `ChainLinks.CalcKeepsLinksExactlyWhenAnchored` | src/BlockChain.cpp:39-75 | On a linked chain an anchored walk is accepted if and only if it reaches the tip; hashes only grows, by the walk backwards; the chain stays linked after an accepted call if and only if the walk was anchored |
| `ChainLoading.AddTakesChildrenOfTheTip` | src/BlockChain.cpp:77-87 | Whatever forks are filed: a block whose parent is not one of the unnumbered ones is taken exactly when it is a child of the tip, or, on a chain still at its first block, when its parent is unknown; it adds one hash or leaves the state unchanged |
| `ChainLoading.AcceptedOnAForkSkipsNumbers` | src/BlockChain.cpp:45-68 | From any state: an accepted block gets the number behind all others, which is the next one if and only if its parent is not one of the unnumbered blocks |
| `ChainLoading.AddKeepsLinksExactlyWhenAnchored` | src/BlockChain.cpp:77-87 | On any linked chain: an accepted block leaves it linked if and only if its walk ended at a numbered block |
| `ChainLoading.ForkOfTheRightLengthIsAccepted` | src/BlockChain.cpp:60-67 | A linked chain of two blocks on which an unanchored fork of two is accepted behind the tip, which unlinks it |
| `ChainLoading.OrphanBecomesBlockOne` | src/BlockChain.cpp:45-75 | A fresh chain accepts a block whose parent nobody knows as block 1 |
| `ChainLoading.FailedAddLeavesNoTraceUnlessParentUnnumbered` | src/BlockChain.cpp:77-87 | A failed add leaves the hashes; it leaves the blocks, and the links, if and only if the parent is not one of the unnumbered ones |
| `ChainLoading.FailedAddNumbersTheFork` | src/BlockChain.cpp:77-87 | A failed add on a fresh chain that leaves a filed block with a number |
| `ChainLoading.ParentBelowTheTipChangesNothing` | src/BlockChain.cpp:77-87 | A block whose parent is numbered but is not the tip leaves the state exactly as it was |
| `ChainReload.AddingOneByOne` | src/BlockChain.cpp:77-87 | Every block of a chain added in turn is accepted under the next number, and the node then holds exactly that chain |
| `ChainReload.LoadingIsAddingOneByOne` | src/SyncImpl.cpp:198-209 | Headers filed in any order, forks among them, and one calcBlockchain on the tip give the same hashes and numbers as adding the chain one by one |
| `BlockChain.BlockChain.AddWithoutCalc` | src/BlockChain.cpp:23-31 | Files a block unless its hash is known; tells which |
| `BlockChain.BlockChain.MarkWalk` | src/BlockChain.cpp:43-58 | The first loop follows the walk and marks it, and says where it ended |
| `BlockChain.BlockChain.NumberBack` | src/BlockChain.cpp:60-67 | The second loop numbers and lists the walk or stops at its first block, whose number is written before the check |
| `BlockChain.BlockChain.CalcBlockchain` | src/BlockChain.cpp:39-75 | The in-place calcBlockchain is the value-level one, exceptions included; its last branch is never taken |
| `BlockChain.BlockChain.AddBlock` | src/BlockChain.cpp:77-87 | The in-place addBlock, rollback included, is the value-level one |
| `BlockChain.BlockChain.GetBlockByNumber` | src/BlockChain.cpp:104-115 | On a linked chain hashes[i] names the block with number i, whose parent is hashes[i - 1]; a default header beyond the end |
| `BlockChain.BlockChain.GetBlock` | src/BlockChain.cpp:89-102 | A header found carries the hash asked for; on a linked chain it has a number if and only if the hash is listed, the number is its place there, and its parent is the one before; a default header for an unknown hash, an exception for the empty one |
| `BlockChain.BlockChain.GetLastBlock` | src/BlockChain.cpp:117-120 | The tip, whose number is the number of blocks |
| `BlockChain.BlockChain.CountBlocks` | src/BlockChain.cpp:122-124 | The genesis block is not counted; on a linked chain the tip has this number |
| `SavedHeaders.SaveNew` | src/SyncImpl.cpp:132-159 | Saving a block of a chain that is not on disk yet adds it to those on disk and makes it the last one, whatever else was saved |
| `SavedHeaders.CompleteMeansAllBelow` | src/SyncImpl.cpp:196-209 | Headers on disk lead from the genesis block to the last one saved if and only if every block below it was saved |
| `Database.SiblingsCommute` | src/SyncImpl.cpp:142-150 | Which of two children of one parent is saved first makes no difference, also behind one of their siblings |
| `Database.SmallerSiblingStays` | src/SyncImpl.cpp:142-150 | Of two children of one parent the one whose hash comes first in a dictionary is the last block on disk, whichever was saved first |
| `Database.LoadRebuildsTheChain` | src/SyncImpl.cpp:196-209 | A restart rebuilds exactly the saved chain, whatever order the database lists the headers in |
| `ChainFollowing.LoadOfWhatWasSaved` | src/SyncImpl.cpp:196-209 | Whatever was saved of a chain and whatever was not, a restart rebuilds the chain up to the last block saved if and only if no header below it is missing; otherwise it fails, except that it loads the last block as block 1, which leaves the chain unlinked, exactly when the parent of the last header is missing, whatever else is |
| `ChainFollowing.NextOfSource` | src/BlockChain.cpp:77-87 | addBlock of the source block behind the last one listed, also on a chain whose block 1 is wrong: refused with the hashes as they were, or numbered as it is in the source; on the right chain it is refused exactly when it is filed already |
| `SavedHeaders.NumberingOverAHole` | src/BlockChain.cpp:39-75 | calcBlockchain from a tip above a missing block: an exception, unless the tip alone is above it |
| `BlockFeed.NetworkBlockSource.DoProcess` | src/BlockSource/NetworkBlockSource.cpp:31-42 | A round starts right behind the chain with nothing held ahead |
| `BlockFeed.NetworkBlockSource.Process` | src/BlockSource/NetworkBlockSource.cpp:48-110 | Hands out the block fetched under the next number, from the window or by fetching up to eight; a failure leaves the position, and a kept exception comes back for its own number only |
| `SyncRound.SyncImpl.LoadBlockchain` | src/SyncImpl.cpp:196-209 | The loop over the headers and the numbering compute what a restart loads from the database, exceptions included |
| `SyncRound.SyncImpl.AddOne` | src/SyncImpl.cpp:311-340 | What each failure leaves behind: nothing when the dump cannot be written, an orphan frame when the chain refuses the block, a block that chain and worker have and the database has not when the save fails |
| `SyncRound.SyncImpl.Take` | src/SyncImpl.cpp:282-309 | Without validation a block is added at once; with it, only when its successor is there and every signature in that is its hash; given up as unconfirmed only when some signature is not |
| `SyncRound.SyncImpl.Turn` | src/SyncImpl.cpp:273-341 | An iteration starts and ends with nextBlockToRead at the number of the block to be added, plus one while a validated block is held; it adds at most the answer to that number, with validation only when the answer to the number after it confirms it; when it stops there is a reason |
| `SyncRound.SyncImpl.Round` | src/SyncImpl.cpp:266-346 | From any state and under any mix of failures and answers: the blocks added are the answers to consecutive numbers; chain, worker, database and block file get the same ones, but for a last block not saved or archived for nothing; and the round ends for one of the reasons the code has |
| `SyncRuns.NumbersFollowExactlyOffForks` | src/SyncImpl.cpp:314-316 | The blocks of a round are numbered as the answers they were to the numbers asked for if and only if none of them is added on top of an unnumbered block |
| `SyncRuns.ForkedChainSkipsANumber` | src/SyncImpl.cpp:314-316 | A chain with a fork on which the answer to number 2 is added as number 3 |
| `SyncRuns.ConsistentSourceGivesAPrefix` | src/SyncImpl.cpp:266-346 | From a consistent source a round adds a contiguous piece of its chain under its own numbers, and saves it but for a last block that failed; with validation every signature in the block after each one added is the hash of that one |
| `SyncRuns.OnlyFailuresEndARoundEarly` | src/SyncImpl.cpp:266-346 | When nothing fails a round adds every block announced, with validation all but the last |
| `SyncRuns.RoundsKeepTheArchive` | src/SyncImpl.cpp:83-97 | However a round ends, the file position in every header, old or new, addresses the dump of its own block; the frame of a refused block is addressed by none |
| `BlockArchive.ArchivedIsRead` | src/BlockchainRead.cpp:403-428 | Reading the block file at the position of a header gives back the dump of its block |
| `CrashRestart.StartKeeps` | src/SyncImpl.cpp:191-264 | A restart keeps the invariant, unless nothing is committed yet and the parent of the last saved header is missing; the node comes up if and only if no header is missing or that one is |
| `CrashRestart.ReplayKeeps` | src/SyncImpl.cpp:238-264 | A replayed block is queued exactly where the queue ends |
| `CrashRestart.AppendKeeps` | src/SyncImpl.cpp:311-331 | So is a new one, unless the worker is ahead of the chain and has it already |
| `CrashRestart.SaveKeeps` | src/SyncImpl.cpp:333 | A save adds the block to those on disk as the last one, whatever was missed before |
| `CrashRestart.SaveFailureKeeps` | src/SyncImpl.cpp:333-346 | A save that throws leaves a block out on disk and nothing else |
| `CrashRestart.NextInQueue` | src/Workers/WorkerMain.cpp:68-76 | The next block in the queue is the one after the last commit, or one that cannot follow it and is refused |
| `WorkerMain.WorkerMain.WorkOne` | src/Workers/WorkerMain.cpp:59-109 | One turn: a block not above the record is skipped, one that does not follow it refused, one whose write throws lost, and any other becomes the record |
| `CrashRestart.WorkKeeps` | src/Workers/WorkerMain.cpp:53-121 | One turn of the worker, whether the write of its batch succeeds or throws, keeps commits contiguous and the queue complete behind what was lost |
| `CrashRestart.AFailedWriteIsStuck` | src/Workers/WorkerMain.cpp:84-109 | A write that throws after the first commit loses the block that the next commit has to be |
| `CrashRestart.StuckUntilRestart` | src/Workers/WorkerMain.cpp:72-109 | From then on the worker refuses every block, whatever else happens, until the node is started again |
| `CrashRestart.CommitsAreTheChain` | src/Workers/WorkerMain.cpp:53-121 | Across any crashes, restarts, failed saves and failed writes, as long as no restart is misled before the first commit: the commits are consecutive blocks of the source under their own numbers, each linked to the one before; they begin at block 1 but for the writes that failed before the first commit; nothing is refused unless a write failed |
| `CrashRestart.CrashesAloneChangeNothing` | src/Workers/WorkerMain.cpp:53-121 | Across any crashes and restarts, at any point, when no write fails: the commits are blocks 1, 2, 3, ... of the source, each linked to the one before, and nothing is refused |
| `CrashRestart.NoFailedSaveNeverMisleads` | src/SyncImpl.cpp:196-209 | A life in which no save fails is never misled, whatever else happens in it |
| `CrashRestart.MisledExactlyWhenWrong` | src/SyncImpl.cpp:191-264 | After any life so far, at a restart with nothing committed: loading, one replay and one turn of the worker commit a block that is not block 1 if and only if the parent of the last header is missing on disk |
| `CrashRestart.RestartFindsWhatWasSaved` | src/SyncImpl.cpp:191-209 | What a restart at any moment would find: the saved headers, of which it rebuilds the chain exactly when none is missing; without a failed save that is always so, and the worker is at most one block ahead |
| `CrashRestart.FirstCommitMayBeBlockTwo` | src/Workers/WorkerMain.cpp:76-84 | A life in which the write of block 1 fails and block 2 is the first commit |
| `CrashRestart.AMisledNodeCommitsTheWrongBlock` | src/SyncImpl.cpp:333-346 | A life in which saving block 1 fails, the node restarts with block 2 as block 1, and the worker commits that, as its first commit |
| `LiveNode.RoundIsARunOfEvents` | src/SyncImpl.cpp:266-346 | A round that adds k blocks, on a chain that follows the source with the right block 1 or with a wrong one, is k times Append and Save, the last perhaps with a failing save |
| `LiveNode.TurnsCanComeLast` | src/SyncImpl.cpp:224-346 | Turns of the worker between any steps of the loop, in any interleaving: the node ends where it would had they come, in the same order, after everything the loop did |
| `LiveNode.LiveNode.Start` | src/SyncImpl.cpp:191-222 | Loading in place, with a new worker at its position on disk, does what the event Start does to the node; a start that is not misled leaves the history never misled |
| `LiveNode.LiveNode.Replay` | src/SyncImpl.cpp:238-264 | Sending a block of the chain to the worker again does what the event Replay does |
| `LiveNode.LiveNode.Work` | src/Workers/WorkerMain.cpp:53-121 | A turn of the worker in place does what the events Work and WorkFails do |
| `LiveNode.LiveNode.Round` | src/SyncImpl.cpp:266-346 | A round in place with a consistent source, under any failures and after any restarts that were not misled before the first commit, adds the next piece of it and takes the node where the run of its events leads; the chain refuses a block only if a save has failed |
| `LiveNode.LiveNode.DiskFollowsTheSource` | src/Workers/WorkerMain.cpp:53-121 | After any calls of these methods the record of the worker on disk is the last of a contiguous piece of the source |
| `Segments.MakeSegments` | src/P2P/P2P.cpp:14-29 | The segments are consecutive and cover the size; none is empty if and only if the count fits the minimal size; the check on the step fails exactly for size 0, or no minimal size and more segments than bytes |
| `RangeRequest.PlanSegments` | src/P2P/P2P_Ips.cpp:67-76 | The counts requestImpl chooses always give non-empty segments, one index each in the multi-request form; in the other as many as there are connections, or as few as cover the response in segments of the minimal size |
| `RangeRequest.UnitSegments` | src/P2P/P2P_Ips.cpp:128-136 | So the check that a range is one index long never fails |
| `Download.RunKeeps` | src/P2P/P2P.cpp:31-97 | In every interleaving queued, in-flight and answered segments together are the pushed ones, no segment is answered twice, and the counters count |
| `Download.NeverStuck` | src/P2P/P2P.cpp:82-92 | Until the wait is over some thread can move |
| `Download.RunsAreShort` | src/P2P/P2P.cpp:42-77 | Every run ends after linearly many steps, and failures never exceed the workers |
| `Download.ResultIsTrueExactlyWhenComplete` | src/P2P/P2P.cpp:86-97 | The result is true if and only if every slot is filled, each by the answer to its own segment; it is false only when all workers have exited |
| `RangeRequest.JoinAnswers` | src/P2P/P2P_Ips.cpp:111-125 | The response is the answers in the order of their slots |
| `RangeRequest.DownloadedIsTheBody` | src/P2P/P2P_Ips.cpp:67-125 | When the result is true, exact ranges of a body join to the body in every interleaving; answers of the right size join to a response of the right size |
| `RangeRequest.CurlDistribution.IndexInCurls` | src/P2P/P2P_Ips.cpp:78-93 | Each worker of a server keeps a connection of its own, and there is one when the server has as many connections as workers |
| `RangeRequest.WorkersPerServer` | src/P2P/P2P_Ips.cpp:59-65 | A server hinted k times has k times as many workers as connections, so one hinted once has enough |
| `Integers.ReadsBack` | src/BlockchainRead.cpp:72-80 | A little-endian integer of any width reads back |
| `BlockFile.File.SaveBlockToFileBinary` | src/BlockchainRead.cpp:72-80 | Appends the size and the dump and returns the position of the frame, which addresses the dump |
| `BlockFile.File.SaveTransactions` | src/SyncImpl.cpp:83-97 | The transaction positions it derives are those that reading the block back reports |
| `BlockFile.ReadBlockTxs` | src/BlockchainRead.cpp:355-401 | The do/while over transactions finds exactly the offsets up to the empty one, shifted by block position and size field |
| `BlockFile.ReadNextBlockInfo` | src/BlockchainRead.cpp:403-428 | Reads the frame at a position, with the header threshold, the wrap-around of the 64-bit sum and the exceptions of the code |
| `BlockFile.CompleteFrame` | src/BlockchainRead.cpp:403-428 | A complete frame is read as the block it holds, whatever follows |
| `BlockFile.IncompleteFrame` | src/BlockchainRead.cpp:403-413 | A frame cut off anywhere is not read and the position stays |
| `BlockFile.ReadingRecoversCompleteDumps` | src/BlockchainRead.cpp:403-428 | For any dumps and any truncation, reading recovers exactly the complete dumps in order and stops in front of the first incomplete one |
| `BlockFile.ResumedReadingMissesNothing` | src/BlockSource/FileBlockSource.cpp:31-59 | Reading a growing file in two sittings from the kept position is reading it once |
| `BlockFile.FileBlockSource.Process` | src/BlockSource/FileBlockSource.cpp:42-58 | Moves behind the block read, or stays |
| `BlockFile.VarIntMoves` | src/BlockchainRead.cpp:146-161 | A varint reads the same wherever its bytes lie |
| `BlockDump.VarIntReadsBack` | src/BlockchainRead.cpp:146-161 | One byte up to 249, else 250, 251 or 252 in front of 2, 4 or 8 little-endian bytes: read back wherever it is written |
| `BlockDump.WrittenDumpIsRead` | src/BlockchainRead.cpp:355-401 | In a dump of an 80-byte header, any transactions behind their sizes and a final 0, exactly these transactions are found, each where it was written |
| `BlockDump.WrittenBlockIsRead` | src/BlockchainRead.cpp:403-428 | Framed by its size and placed anywhere in a file it is read whole, with the positions of its transactions in the file |
| `BlockDump.WrittenTransactionIsRead` | src/BlockchainRead.cpp:335-353 | Each of them with at least seven bytes can be read by its position alone |
| `BlockDump.SizesBeyondTheFile` | src/BlockchainRead.cpp:411-418 | A size field that reaches beyond the file is an incomplete block, or an exception when adding the prefix to it wraps around |
| `BlockFile.ReadOneTransactionInfo` | src/BlockchainRead.cpp:335-353 | Reads one transaction by its position through a zero-filled buffer |
| `BlockFile.EveryTransactionIsAddressed` | src/BlockchainRead.cpp:369-372 | Every transaction position reported for a block addresses, in the file, the very transaction of that block |
| `LruHeap.Heap.AddElement` | src/utils/Heap.cpp:14-27 | The map and the ordered entries stay inverse, so the old entry is always found; a key touched last goes last |
| `LruHeap.Heap.ReduceToMax` | src/utils/Heap.cpp:29-42 | Evicts exactly the first entries in time order until at most newSize keys stay; refuses 0 |
| `LruHeap.EvictedAreOldest` | src/utils/Heap.cpp:35-40 | Whatever is evicted was last used no later than anything that stays |
| `LruHeap.EvictionIsLeastRecentlyUsed` | src/utils/Heap.cpp:14-42 | With a steady clock, over any run of touches and reductions, the order of entries is the order of last use |

## Left out

- Lz4Compressor.CompressGeneric: paths with an output check or a dictionary are not modelled, and the hash functions are parameters.
- Lz4Decoder.DecompressSafe: requires at least one input byte, and a second one when the first announces a longer literal run, as the code reads them without a test; pointer overflow tests are not modelled because positions are unbounded.
- Compress.Decompress: what the buffer holds when decoding fails is not stated, only its size.
- Lz4FrameDecoder.Dctx.Decompress: linked blocks and skippable frames count as errors, the temporary buffers are sequences of what was filled in, the block decoder appears as its value-level equal, and the remaining size does not wrap around.
- PendingQueues.Queues.InvokePending: callbacks act on the queues only, by feeds and clears from a finite script; a callback that starts or stops a timer is not modelled.
- EvTimers.Loop.ReifyAndInvoke: nothing else is fed between the two calls, and callbacks leave the queues alone.
- SyncRound.SyncImpl.Round: blocks are always saved to one file (the file name, and the mode that archives single transactions, are left out); a write to it either fails before anything is appended or succeeds.
- LiveNode.LiveNode.Round: the worker takes its turns between rounds here; the machine of events has them at any moment, and `TurnsCanComeLast` says that it makes no difference.
- CrashRestart.CommitsAreTheChain: the worker may commit a wrong first block after a restart that is misled before the first commit, so those lives are excluded; `MisledExactlyWhenWrong` says that each such restart can lead to it, and no other. The source gives the same chain throughout, a batch is written as a whole or not at all, and a stop signal is a crash.
- BlockFile.FileBlockSource.Process: which file is read, closing it, and the position kept for each file are left out.
- Download.NeverStuck: requests fail only in the retryable way; other exceptions and stop signals drop the segment in flight. The queue is a lossless first-in-first-out queue without its capacity of 1000.
- BlockFile.ReadNextBlockInfo: the body of a transaction is parsed by a function of its bytes that is a parameter; hashes, addresses, signatures and JSON are not modelled.
- LruHeap.EvictionIsLeastRecentlyUsed: assumes a clock that does not go back; ReduceToMax and AddElement are proved for any times.
- Watcher lists, growable arrays, buffers of the frame decoder and the block map are sequences and maps; allocation failure and reuse of memory are not modelled. Event masks are sets of bits.
- pri_adjust: priorities are in range, so that it has nothing to do.
- Prefetching of headers and dumps in batches (src/BlockSource/GetNewBlocksFromServers.cpp) and the choice of the next file in getNextFile.
- The node-test worker; only its position enters, as the start of the replay.
- LZ4 HC, dictionaries, streaming and destSize variants; other libev backends, signals, child watchers and clock jumps; cryptography; the HTTP server, configuration and logging.
