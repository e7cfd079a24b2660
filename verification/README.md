# Vectorscan verification

A Dafny model of the parts of Vectorscan that decide what a user sees: the
Chimera hybrid runtime, compressed stream state, the database container and its
CRC, match reporting, the stream lifecycle, the scratch allocators, and the two
graph tools that the tests of the engine rest on. Paths below are relative to the
root of the repository.

| files | component |
|---|---|
| `MatchQueue`, `ChimeraModel`, `ChimeraInvariant`, `ChimeraSteps`, `ChimeraRuntime` | a Chimera scan: priority queue, active set, per-pattern scan starts, driven by libpcre, Hyperscan and the user's callbacks |
| `MultibitCodec`, `MultibitSet`, `MultibitIterate`, `MultibitAll` | multibit structures: as sets of keys, their iteration and their compressed form |
| `StreamPlan`, `StreamFields`, `StreamCompress`, `StreamTheorems` | the size, compress and expand forms of stream state |
| `FindMatches`, `FindMatchesScan`, `FindMatchesTheorems`, `FuzzyMatching`, `FuzzyWords` | the reference NFA simulator with start-of-match tracking and edit levels, and what it matches in terms of edit and Hamming distance |
| `Crc32c`, `CrcReference`, `Database` | CRC-32C and the serialised database |
| `FindPaths` | the cycle-limited path search of the corpus generator |
| `Dedupe`, `SomLog`, `LogicalCombination` | reporting: the two-log deduper, the start-of-match logs, logical combinations |
| `StreamRuntime`, `StreamChunks`, `StreamExpansion`, `StreamCalls` | opening, scanning, closing, resetting and copying streams, expanding over them, vectored scans, the history buffer, and sequences of such calls on one scratch |
| `Arena`, `Allocations`, `ScratchGrowth` | the hand-packed allocations and the growth of a scratch over many databases |
| `Common` | return codes and stock definitions |

libpcre, Hyperscan's matching and the Rose engine are parameters with stated
promises, never more than the runtime relies on:

- libpcre (`Env.PcreContract`): a match found from a start offset lies in the data
  and not before that offset.
- Hyperscan inside Chimera (`HsContract`): reports come in order of end offset; a
  fixed-width pattern is reported exactly where PCRE matches it; any other pattern
  that PCRE matches is reported no later than the end of its first match.
- The engine behind a stream (`Engine`): functions from the stream's state, the
  history shown and the data to callbacks, status and state. For the history
  theorems, the program run at offset 0 halts only with a status that breaks the
  stream (`Lawful`), as the source asserts. For independence of the cuts, a block does
  what its two parts do one after the other (`Compositional`). For calls that replace a stream's
  memory, its parts stay inside that memory (`KeepsSize`).

Bytes of stream memory are numbers below 256, CRC registers and database words
are bit vectors, offsets and sizes are unbounded unless a width is written out
(the 32-bit cut of the stream offset, the 32-bit sum of the width test, the 64-bit
subtraction in slicing-by-8, the wrap of the deduper's ~0).

## Where the code does less than it promises

- Expanding a strict prefix of a compressed stream does not always fail: flat
  multibits and the root block of a pyramid are read without a look at the stated
  size. `StrictPrefixes` says exactly when every prefix is refused,
  `ShortPrefixAccepted` gives a stream for which one is not.
- `stream_compress_impl.h:127` cuts the stream offset to 32 bits before it decides
  how much history to copy, while `runtime.c:77-85` uses all of it.
  `CopiedHistoryIsLive`, `HistoryKept` and `HistoryLost` say exactly when live
  history survives; `HistoryLostAtInput` is a stream whose history does not.
- `crc32.c:536` subtracts without a check; `ReadsInsideIffLongEnough` says exactly
  when that is harmless, `ShortUnalignedBufferOverruns` gives a buffer for which it
  is not, and `Database.CheckCrc` shows that databases never meet the case.
- `filterMatches` starts from 2^32 - 1, so an end offset whose least start is at or
  above 2^32 is lost; `FindMatchesIsExact` carries that bound as its condition, and
  `LateMatchIsLost` is a graph and an input with such a match.
- `findMatches` counts states in 32 bits; `TotalStatesBound` says exactly for which
  distances the count is true and when the size test is right, and gives a distance
  for which it passes any graph.
- `hs_reset_and_expand_stream` answers HS_INVALID to a buffer that is too short, but by
  then offset and status may be those of the form: a terminated stream makes callbacks
  again after a call that failed. `FailedExpansion` says exactly when it does not,
  `SilentUntilRevived` what that means for sequences of calls, and
  `TruncatedFormRevives` is a stream, a form and a size.
- With a Hamming distance `findMatches` replaces no byte on a self-loop. `WithinHamming`
  is exact about it; `LoopReplacementLost` and `OneDifference` are a graph, an input and
  a word one byte away.
- After a missing block `hs_scan_vector` makes no end-of-data callbacks, where a
  client's own close would; `VectorIsOpenScanClose` is an equivalence,
  `MissingBlockLosesReport` an engine and a block list.
- `hs_close_stream`, `hs_reset_stream`, `hs_reset_and_copy_stream` and
  `hs_reset_and_expand_stream` on a broken stream look at the error flag that the last
  scan left in the scratch, which may have been of another stream. `BrokenEod` and
  `ReleasedWhen` say exactly when they succeed; `ErrorOfAnotherStream` is a reset that
  another stream's error prevents.
- `hs_alloc_scratch` sizes the dedupe logs only for databases with dedupe keys, but a
  scan that tracks starts of match clears them in any case (`report.h:65-74`).
  `LogCoveredWhen` says exactly when they are there, and `KeylessLogsAlias` where they
  lie when they are not.
- `writePattern` may exceed `patternSize` by its rounding when PCRE's study output
  exists but is empty; `PatternFits` is an equivalence, `EmptyStudyOverruns` a pattern,
  and the slot is still large enough.

## Model

| member | source | states |
|---|---|---|
| `MatchQueue.RootIsLeast` | vectorscan-rs-sys/vectorscan/src/util/pqueue.h:75-78 | in a heap no slot is smaller than slot 0, in the order of PQ_COMP (end, start, pattern): what reading the top relies on |
| `MatchQueue.LiftedIsHeap` | vectorscan-rs-sys/vectorscan/src/util/pqueue.h:87-100 | the upward walk of an insertion ends in a heap that holds exactly the old bag and the new item |
| `MatchQueue.SiftedIsHeap` | vectorscan-rs-sys/vectorscan/src/util/pqueue.h:49-73 | the downward walk of a removal ends in a heap of the same bag |
| `MatchQueue.LastToRoot` | vectorscan-rs-sys/vectorscan/src/util/pqueue.h:80-85 | moving the last item over the root removes exactly the old top and leaves everything in order away from the root |
| `MatchQueue.Queue.Insert` | vectorscan-rs-sys/vectorscan/chimera/ch_runtime.c:75-85 | the array heap stays a heap and gains exactly the inserted item |
| `MatchQueue.Queue.Lift` | vectorscan-rs-sys/vectorscan/src/util/pqueue.h:87-100 | the in-place loop of pq_insert is the recursive walk that LiftedIsHeap is about |
| `MatchQueue.Queue.Pop` | vectorscan-rs-sys/vectorscan/chimera/ch_runtime.c:88-91 | the heap stays a heap and loses exactly its top |
| `MatchQueue.Queue.Sift` | vectorscan-rs-sys/vectorscan/src/util/pqueue.h:49-73 | the in-place loop of pq_sift is the recursive walk that SiftedIsHeap is about |
| `ChimeraModel.ExpectedNeverOverlaps` | vectorscan-rs-sys/vectorscan/chimera/ch_runtime.c:274-290 | the iterated PCRE matches of a pattern lie in the data, never overlap, start strictly later each time and end in order, vacuous and UTF-8 vacuous matches included |
| `ChimeraModel.ExpectedIterates` | vectorscan-rs-sys/vectorscan/chimera/ch_runtime.c:274-290 | the expected matches of a pattern are what PCRE finds from 0, then each time from the end of a non-empty match, or past an empty one at the next byte, for UTF-8 at the next start of a code point, until it finds nothing |
| `ChimeraModel.ResumesOnce` | vectorscan-rs-sys/vectorscan/chimera/ch_runtime.c:274-290 | there is one such place to go on from |
| `ChimeraModel.PcreOnlyIsGiven` | vectorscan-rs-sys/vectorscan/chimera/ch_compile.cpp:590-610 | a database without Hyperscan meets the promises, and two matches are expected of it |
| `ChimeraModel.GuardedIsGiven` | vectorscan-rs-sys/vectorscan/chimera/ch_runtime.c:369-469 | so do a pattern that Hyperscan reports and one that PCRE confirms |
| `ChimeraRuntime.Scan.ScanPcre` | vectorscan-rs-sys/vectorscan/chimera/ch_runtime.c:210-293 | one PCRE call either queues the match, with the next scan start strictly past its start, or ends in the code and error callback of a non-match; a UTF-8 pattern is rejected exactly when the data is not UTF-8 |
| `ChimeraRuntime.Scan.HandlePcreNonMatch` | vectorscan-rs-sys/vectorscan/chimera/ch_runtime.c:181-208 | no match, match limit, recursion limit and other codes give the answer and the error callback the source gives; a match limit is fault 1, a recursion limit fault 2 |
| `ChimeraRuntime.Scan.IsValidUtf8` | vectorscan-rs-sys/vectorscan/chimera/ch_runtime.c:127-149 | the answer is that of checking all the data, whatever the highwater mark remembers, and the check is made at most once in a scan |
| `ChimeraRuntime.Scan.TopIsLeast` | vectorscan-rs-sys/vectorscan/chimera/ch_runtime.c:301-304 | the match taken next is the one with the earliest end, among these the earliest start, among these of the first pattern |
| `ChimeraSteps.DeliveryLemma` | vectorscan-rs-sys/vectorscan/chimera/ch_runtime.c:301-346 | popping and delivering the least queued match keeps the invariant of the scan for each answer of the callback: go on, skip the pattern, stop |
| `ChimeraSteps.ScanLemma` | vectorscan-rs-sys/vectorscan/chimera/ch_runtime.c:347-363 | a rescan keeps the invariant whatever PCRE answers |
| `ChimeraSteps.Requeue` | vectorscan-rs-sys/vectorscan/chimera/ch_runtime.c:426-468 | queueing a pattern's next match keeps every pattern on its track of expected matches |
| `ChimeraSteps.FlushedIsComplete` | vectorscan-rs-sys/vectorscan/chimera/ch_runtime.c:590-630 | once the queue is empty, and Hyperscan is through or every pattern has been seen, each pattern not skipped has delivered all its expected matches: the all-confirm early stop loses nothing |
| `ChimeraSteps.CallbackIsNextMatch` | vectorscan-rs-sys/vectorscan/chimera/ch_runtime.c:395-469 | a Hyperscan report of a fixed-width pattern that passes the width test is PCRE's next match |
| `ChimeraSteps.PotentialDrops` | vectorscan-rs-sys/vectorscan/chimera/ch_runtime.c:301-363 | a sum over the queued patterns falls with every round of the loop, because the scan start of the rescanned pattern rises |
| `ChimeraSteps.QueueFits` | vectorscan-rs-sys/vectorscan/chimera/ch_scratch.c:77-125 | with at most one entry for each pattern the queue never holds more than patternCount items |
| `ChimeraSteps.MatchesNeverOverlap` | vectorscan-rs-sys/vectorscan/chimera/ch_runtime.c:210-469 | two delivered matches of one pattern never overlap, and the later one starts later |
| `ChimeraSteps.DeliveredIterates` | vectorscan-rs-sys/vectorscan/chimera/ch_runtime.c:210-469 | what a scan delivers for a pattern is what iterating PCRE finds, to the last match on success |
| `ChimeraSteps.ScanIsExcused` | vectorscan-rs-sys/vectorscan/chimera/ch_runtime.c:181-208 | every answer of scanPcre has a cause: success, a fatal PCRE code, bad UTF-8, or the error callback |
| `ChimeraSteps.WillingSucceeds` | vectorscan-rs-sys/vectorscan/chimera/ch_runtime.c:526-630 | with callbacks that go on, no fatal PCRE code and valid UTF-8 a code with a cause is success, and no pattern was skipped |
| `ChimeraSteps.ReportIsQueued` | vectorscan-rs-sys/vectorscan/chimera/ch_runtime.c:395-410 | when an active fixed-width pattern is reported past the width test, a match of it that ends by then is queued |
| `ChimeraRuntime.Scan.FirstScan` | vectorscan-rs-sys/vectorscan/chimera/ch_runtime.c:413-430 | the first scan of a pattern keeps the invariant unless it stops or fails, with its cause |
| `ChimeraRuntime.Scan.ScanData` | vectorscan-rs-sys/vectorscan/chimera/ch_runtime.c:571-630 | the scan proper: order, obedience, completeness on success, and the cause of every other code |
| `ChimeraRuntime.Scan.Rescan` | vectorscan-rs-sys/vectorscan/chimera/ch_runtime.c:347-363 | the rescan of a delivered pattern keeps the invariant; if it is queued again its scan start has risen; a failure code has its cause |
| `ChimeraRuntime.Scan.CatchupStep` | vectorscan-rs-sys/vectorscan/chimera/ch_runtime.c:301-363 | one round delivers the least queued match and lowers the sum, or ends with a code that has its cause |
| `ChimeraRuntime.Scan.CatchupPcre` | vectorscan-rs-sys/vectorscan/chimera/ch_runtime.c:295-366 | it terminates for every queue, oracle and callback; the insert of line 309 is never reached; on success the final flush empties the queue, or the pattern at hand has been delivered; a failure code has its cause |
| `ChimeraRuntime.Scan.Confirm` | vectorscan-rs-sys/vectorscan/chimera/ch_runtime.c:391-430 | the first report of a pattern to confirm starts it from offset 0 without breaking the order of ends, or leaves a code that has its cause |
| `ChimeraRuntime.Scan.CatchupFixedWidth` | vectorscan-rs-sys/vectorscan/chimera/ch_runtime.c:426-468 | a later report of an active fixed-width pattern is queued after the queue has caught up; when the scan is ending there is still room for it |
| `ChimeraRuntime.Scan.MultiCallback` | vectorscan-rs-sys/vectorscan/chimera/ch_runtime.c:369-469 | every Hyperscan callback keeps the invariant; a non-zero answer without an error means every pattern is active; the 32-bit sum in the width test does not wrap |
| `ChimeraRuntime.Scan.InitQueue` | vectorscan-rs-sys/vectorscan/chimera/ch_runtime.c:490-524 | every pattern that Hyperscan cannot guard has been started when it succeeds; a failure code has its cause |
| `ChimeraRuntime.Scan.ScanHyperscan` | vectorscan-rs-sys/vectorscan/chimera/ch_runtime.c:471-483 | Hyperscan is heard to its end, or stopped by a non-zero answer, which has its cause |
| `ChimeraRuntime.Scan.ChScan` | vectorscan-rs-sys/vectorscan/chimera/ch_runtime.c:526-630 | whatever the callbacks answer: ends never decrease, nothing follows a stop, nothing of a pattern follows its skip, each pattern delivers a prefix of its iterated PCRE matches; a stop is always reported; a failure code means a stop, a fatal PCRE code, data that is not UTF-8, an answer of the error callback or an error of Hyperscan; with callbacks that go on and none of these the scan succeeds and every pattern delivers exactly its iterated matches; the scratch is released; each pattern's matches are those that PCRE finds, each from where the one before it ends |
| `MultibitCodec.CountBlocks` | vectorscan-rs-sys/vectorscan/src/util/multibit_compress.h:44-82 | the iterative walk counts the blocks in use, each once, and ends |
| `MultibitCodec.CompSize` | vectorscan-rs-sys/vectorscan/src/util/multibit_compress.h:44-82 | the size announced is that of the compressed form |
| `MultibitCodec.WriteBlocks` | vectorscan-rs-sys/vectorscan/src/util/multibit_compress.h:113-136 | the iterative walk writes the blocks in use in preorder |
| `MultibitCodec.Compress` | vectorscan-rs-sys/vectorscan/src/util/multibit_compress.h:86-137 | it fails, writing nothing, exactly when the space is too small; otherwise it writes the compressed form and nothing else |
| `MultibitCodec.ReadBlocks` | vectorscan-rs-sys/vectorscan/src/util/multibit_compress.h:166-196 | the walk that steers by blocks it has just written restores every block in use of the source, in any target memory, or stops when a block below the root runs past the end; then exactly the blocks up to and including that one are overwritten |
| `MultibitCodec.Decompress` | vectorscan-rs-sys/vectorscan/src/util/multibit_compress.h:141-197 | it fails exactly when there are blocks below the root and the form runs past the stated end; what is overwritten, on success the live bytes and on failure the blocks read by then, is stated in both cases, and it takes the source's values |
| `MultibitCodec.FirstVisit` | vectorscan-rs-sys/vectorscan/src/util/multibit_compress.h:64-68 | the popcount comparison tells the first visit of a block from a return to it |
| `MultibitCodec.LinkedVisited` | vectorscan-rs-sys/vectorscan/src/util/multibit.h:411-422 | every block under a chain of set bits is walked, whatever lazy clearing has left in it |
| `MultibitCodec.SameKeys` | vectorscan-rs-sys/vectorscan/src/util/multibit.h:411-433 | memory that agrees on the live bytes holds the same set of keys |
| `MultibitCodec.NextIsLeast` | vectorscan-rs-sys/vectorscan/src/util/multibit.h:597-615 | iteration finds the least set key from a position on |
| `MultibitCodec.SameEncoded` | vectorscan-rs-sys/vectorscan/src/util/multibit_compress.h:86-137 | compressing a restored copy gives the same bytes |
| `MultibitSet.Clear` | vectorscan-rs-sys/vectorscan/src/util/multibit.h:332-343 | memory that may hold anything becomes a valid multibit without keys, though only the root of a pyramid is written |
| `MultibitSet.Set` | vectorscan-rs-sys/vectorscan/src/util/multibit.h:347-386 | the set of keys gains exactly the key, which blocks never written before cannot disturb; the answer says whether it was there; validity is kept and nothing outside the structure changes |
| `MultibitSet.SetBig` | vectorscan-rs-sys/vectorscan/src/util/multibit.h:357-375 | the same of the walk down a pyramid that gives every block below the first clear bit a fresh single bit |
| `MultibitSet.Unset` | vectorscan-rs-sys/vectorscan/src/util/multibit.h:438-482 | the set of keys loses exactly the key; blocks stay in use |
| `MultibitSet.UnsetBig` | vectorscan-rs-sys/vectorscan/src/util/multibit.h:448-467 | the same of the walk down a pyramid |
| `MultibitSet.Test` | vectorscan-rs-sys/vectorscan/src/util/multibit.h:405-434 | the answer is membership |
| `MultibitSet.LinkedAfterSet` | vectorscan-rs-sys/vectorscan/src/util/multibit.h:357-375 | exactly the path of the key is added to the chains of set bits |
| `MultibitSet.BlocksApart` | vectorscan-rs-sys/vectorscan/src/util/multibit.h:222-241 | different blocks of a pyramid do not overlap |
| `MultibitSet.FittingIsWellFormed` | vectorscan-rs-sys/vectorscan/src/util/multibit_build.cpp:49-73 | valid multibits have all blocks in use inside the size computed for them, which is what the codec requires |
| `MultibitAll.AllIsLevels` | vectorscan-rs-sys/vectorscan/src/util/multibit.h:689-733 | every key is on exactly when every level is full up to its number of entries in use |
| `MultibitAll.CoveringIsRoundedUp` | vectorscan-rs-sys/vectorscan/src/util/multibit.h:697-703 | that number is the total rounded up to the width of an entry |
| `MultibitAll.All` | vectorscan-rs-sys/vectorscan/src/util/multibit.h:669-744 | the level-by-level test answers whether every key is on: what the all-confirm and all-single stops of Chimera rest on |
| `MultibitIterate.ClearRunNoKeys` | vectorscan-rs-sys/vectorscan/src/util/multibit.h:564-579 | no key under a run of clear bits is set |
| `MultibitIterate.IterateBig` | vectorscan-rs-sys/vectorscan/src/util/multibit.h:549-588 | from the start or from a set key, the walk up and down the pyramid ends at the least set key after it, or at none |
| `StreamCompress.Size` | vectorscan-rs-sys/vectorscan/src/stream_compress.c:127-130 | the size announced is the length of the compressed form |
| `StreamCompress.CompressStream` | vectorscan-rs-sys/vectorscan/src/stream_compress.c:113-117 | exactly the compressed form is written, at the start of the buffer, and its length returned |
| `StreamCompress.CompressEntries` | vectorscan-rs-sys/vectorscan/src/stream_compress_impl.h:157-164 | the loops over active queues, leftfixes and SOM slots write the entries of the set keys, ascending |
| `StreamCompress.HsCompressStream` | vectorscan-rs-sys/vectorscan/src/runtime.c:1178-1202 | the needed size is always reported; too small a buffer is left untouched, otherwise it holds the compressed form |
| `StreamCompress.ExpandSteps` | vectorscan-rs-sys/vectorscan/src/stream_compress.c:47-83 | a run of copies succeeds exactly when the stated size reaches its last checked end; the bytes overwritten, also by a run that fails, are exactly those of the steps up to the failing one, and take the source's values |
| `StreamCompress.ExpandEntries` | vectorscan-rs-sys/vectorscan/src/stream_compress_impl.h:36-106 | the loops steered by multibits restored a moment ago make the compressor's decisions, and stop in the middle with exactly what was copied by then |
| `StreamCompress.Expand` | vectorscan-rs-sys/vectorscan/src/stream_compress_impl.h:109-184 | for every layout, source stream and target memory: it fails exactly when the stated size is below what it demands; otherwise it consumes exactly the compressed form, restores the offset and every live byte and touches no other. A failure leaves the offset of the form from a size of 8 on, and in the body exactly what was copied by then. On success every field of the layout (status, roles, activity, literal, anchor and group state, history, the three vectors, queue states, leftfix lags, SOM slots) is that of the source; outside the fields nothing changes in any case |
| `StreamCompress.ExpandPlan` | vectorscan-rs-sys/vectorscan/src/stream_compress_impl.h:121-184 | everything after the offset field: when it succeeds, where it ends and what it overwrites |
| `StreamCompress.ExpandSom` | vectorscan-rs-sys/vectorscan/src/stream_compress_impl.h:74-106 | the same for the SOM part |
| `StreamCompress.LoadStore` | vectorscan-rs-sys/vectorscan/src/stream_compress_impl.h:118-118 | the offset field reads back |
| `StreamTheorems.SamePlan` | vectorscan-rs-sys/vectorscan/src/stream_compress_impl.h:109-184 | an expanded stream makes every copy decision as its source does |
| `StreamTheorems.RecompressIsIdentical` | vectorscan-rs-sys/vectorscan/src/stream_compress_impl.h:109-184 | compressing an expanded stream gives back the bytes it came from |
| `StreamTheorems.EntriesRestored` | vectorscan-rs-sys/vectorscan/src/stream_compress_impl.h:55-104 | the expanded stream has exactly the source's active queues, leftfixes and valid SOM slots, and each one's state bytes |
| `StreamFields.FieldsRestored` | vectorscan-rs-sys/vectorscan/src/stream_compress_impl.h:36-184 | restoring what is copied restores every field: the keys of roles, active queues and leftfixes, exhausted, logical, combination and SOM vectors, and the bytes of status, literal, anchor and group state, history, the state of every active queue and kept leftfix with its lag, and every valid SOM slot |
| `StreamFields.PlanInFields` | vectorscan-rs-sys/vectorscan/src/stream_compress_impl.h:36-184 | nothing is copied that does not belong to one of these |
| `StreamFields.ElsewhereKept` | vectorscan-rs-sys/vectorscan/src/stream_compress_impl.h:36-184 | so an expansion keeps all other bytes of its target |
| `StreamTheorems.FixedForm` | vectorscan-rs-sys/vectorscan/src/stream_compress_impl.h:118-157 | the order of the bytes in the part of the form that every stream has |
| `StreamTheorems.StatusWritten` | vectorscan-rs-sys/vectorscan/src/stream_compress_impl.h:118-121 | the status byte is overwritten exactly from a stated size of 9 on, and below that nothing of the body is |
| `StreamPlan.WrittenIsLive` | vectorscan-rs-sys/vectorscan/src/stream_compress.c:47-83 | an expansion, failing or not, overwrites nothing but live bytes of the source |
| `StreamPlan.WrittenAll` | vectorscan-rs-sys/vectorscan/src/stream_compress.c:47-83 | one that gets to its end has overwritten all of them |
| `StreamTheorems.CopiedHistoryIsLive` | vectorscan-rs-sys/vectorscan/src/stream_compress_impl.h:124-127 | cutting the offset to 32 bits is harmless exactly below 2^32 or when the cut offset is at least historyRequired |
| `StreamTheorems.HistoryKept` | vectorscan-rs-sys/vectorscan/src/stream_compress_impl.h:146-149 | under that condition every history byte that getHistory shows is restored |
| `StreamTheorems.HistoryLost` | vectorscan-rs-sys/vectorscan/src/stream_compress_impl.h:146-149 | otherwise the oldest live history byte is whatever the target memory held |
| `StreamTheorems.HistoryLostAtInput` | vectorscan-rs-sys/vectorscan/src/stream_compress_impl.h:124-149 | a layout, a stream at offset 2^32 and a target for which live history is not restored |
| `StreamTheorems.StrictPrefixes` | vectorscan-rs-sys/vectorscan/src/stream_compress.c:47-83 | every strict prefix is refused if and only if the last step that writes anything is a checked one |
| `StreamTheorems.UncheckedTail` | vectorscan-rs-sys/vectorscan/src/util/multibit_compress.h:146-158 | a form that ends in a non-empty flat multibit has a strict prefix that expands |
| `StreamTheorems.ShortPrefixAccepted` | vectorscan-rs-sys/vectorscan/src/util/multibit_compress.h:146-158 | a concrete engine and stream with such a prefix |
| `FindMatches.GatherSuccessorsByDepth` | vectorscan-rs-sys/vectorscan/util/ng_find_matches.cpp:63-100 | the loop gathers exactly the vertices at each depth |
| `FindMatches.PopulateTransitions` | vectorscan-rs-sys/vectorscan/util/ng_find_matches.cpp:204-261 | the cached shadow and helper successors are those of the definition, at every depth |
| `FindMatches.BuildCache` | vectorscan-rs-sys/vectorscan/util/ng_find_matches.cpp:140-261 | the tables of all vertices are those of the definition |
| `FindMatches.TablesAreRight` | vectorscan-rs-sys/vectorscan/util/ng_find_matches.cpp:651-677 | successors read from the tables are the successors of the definition |
| `FindMatches.Step` | vectorscan-rs-sys/vectorscan/util/ng_find_matches.cpp:957-1044 | the next state set holds exactly the states some active state moves to, each with the least start carried to it |
| `FindMatches.BoundaryFlags` | vectorscan-rs-sys/vectorscan/util/ng_find_matches.cpp:863-894 | the assertion flags together are a word boundary or its absence, and each alone one of the four cases |
| `FindMatchesScan.StepIsUnique` | vectorscan-rs-sys/vectorscan/util/ng_find_matches.cpp:735-742 | that description leaves no choice: the order in which states are visited does not matter |
| `FindMatchesScan.GetAcceptMatches` | vectorscan-rs-sys/vectorscan/util/ng_find_matches.cpp:898-945 | the matches added are those that active states report |
| `FindMatchesScan.LeastStart` | vectorscan-rs-sys/vectorscan/util/ng_find_matches.cpp:1048-1080 | the loop finds the least start of an end offset, or 2^32 - 1 |
| `FindMatchesScan.FilterMatches` | vectorscan-rs-sys/vectorscan/util/ng_find_matches.cpp:1048-1080 | what is kept is what does not exceed that cut-off |
| `FindMatchesScan.EmptyStaysEmpty` | vectorscan-rs-sys/vectorscan/util/ng_find_matches.cpp:1119-1139 | an empty state set stays empty |
| `FindMatchesScan.NothingAfterEmpty` | vectorscan-rs-sys/vectorscan/util/ng_find_matches.cpp:1119-1139 | so the early exit loses no match |
| `FindMatchesScan.FindAll` | vectorscan-rs-sys/vectorscan/util/ng_find_matches.cpp:1086-1152 | it answers false exactly when the number of states, as computed in 32 bits, is too big, and otherwise returns the filtered matches of the whole input |
| `FindMatchesScan.TotalStatesBound` | vectorscan-rs-sys/vectorscan/util/ng_find_matches.cpp:1100-1105 | the number of states is the true one if and only if the distance is at most 1431655764; the size test answers as the true number would if and only if that holds or what is left of the number after the wrap is still too big; at the next distance every graph passes |
| `FindMatchesTheorems.FilterKeepsLeast` | vectorscan-rs-sys/vectorscan/util/ng_find_matches.cpp:1048-1080 | the filter keeps (a, e) exactly when a is the least start found for e and below 2^32 |
| `FindMatchesTheorems.FindMatchesIsExact` | vectorscan-rs-sys/vectorscan/util/ng_find_matches.cpp:1086-1152 | for every distance: (a, e) is returned exactly when some run of the automaton reports e, a is the least start of such runs, and a is below 2^32 |
| `FindMatchesTheorems.FindMatchesIsExactOnShortInput` | vectorscan-rs-sys/vectorscan/util/ng_find_matches.cpp:1086-1152 | on inputs of at most 2^32 bytes the last condition always holds |
| `FindMatchesTheorems.LateMatchIsLost` | vectorscan-rs-sys/vectorscan/util/ng_find_matches.cpp:1048-1080 | a graph and an input of 2^32 + 1 bytes with a match whose end findMatches does not return |
| `FindMatchesTheorems.ExactMatching` | vectorscan-rs-sys/vectorscan/util/ng_find_matches.cpp:897-1152 | with both distances zero the runs are plain walks of the graph, and a is the least offset at which such a walk last left a start vertex |
| `FindMatchesTheorems.ZeroDistanceMoves` | vectorscan-rs-sys/vectorscan/util/ng_find_matches.cpp:957-1044 | without edits a move is one edge of the graph |
| `FindMatchesTheorems.ZeroDistanceReports` | vectorscan-rs-sys/vectorscan/util/ng_find_matches.cpp:898-945 | without edits a report is one edge into accept |
| `FindMatchesTheorems.MoreEditsKeepStates` | vectorscan-rs-sys/vectorscan/util/ng_find_matches.cpp:957-1044 | with one more edit allowed every state stays active, with a start no later |
| `FindMatchesTheorems.MoreEditsKeepMatches` | vectorscan-rs-sys/vectorscan/util/ng_find_matches.cpp:1086-1152 | with one more edit allowed no end offset is lost and no start moves later |
| `FuzzyWords.WordsWithinDistance` | vectorscan-rs-sys/vectorscan/util/ng_find_matches.cpp:1086-1152 | for every edit or Hamming distance: (b, e) is returned exactly when some stretch of the input that starts at b is within that distance of a word of the graph whose walk raises e, no such stretch starts earlier, and b is below 2^32; a walk from start begins at offset 0, one from startDs anywhere; an empty stretch counts as starting one byte before it |
| `FuzzyWords.WithinDistance` | vectorscan-rs-sys/vectorscan/util/ng_find_matches.cpp:204-261 | aligning a walk and a stretch with at most k edits is being within edit distance k of a word that the walk reads |
| `FuzzyWords.WithinHamming` | vectorscan-rs-sys/vectorscan/util/ng_find_matches.cpp:204-261 | without insertions it is a word of the same length with at most k differences, none of them on a self-loop |
| `FuzzyWords.LoopReplacementLost` | vectorscan-rs-sys/vectorscan/util/ng_find_matches.cpp:61-98 | ^a+b on "axab" with Hamming distance 1: the end is not reported |
| `FuzzyWords.OneDifference` | vectorscan-rs-sys/vectorscan/util/ng_find_matches.cpp:229-241 | although "aaab" is a word of the graph that differs in one byte |
| `FuzzyMatching.ApproximateMatching` | vectorscan-rs-sys/vectorscan/util/ng_find_matches.cpp:1086-1152 | the same in terms of walks and alignments: (b, e) is returned exactly for the least start of a stretch that a walk which raises e reads with at most k bytes replaced, inserted or left out |
| `FuzzyMatching.FuzzyEnds` | vectorscan-rs-sys/vectorscan/util/ng_find_matches.cpp:1086-1152 | the ends reported, also with virtual starts, at which no byte can be replaced |
| `FuzzyMatching.RunAligns` | vectorscan-rs-sys/vectorscan/util/ng_find_matches.cpp:957-1044 | every run has a walk from where it left its start that reads the input with the edits of its level; assertions in the graph included |
| `FuzzyMatching.AlignedRuns` | vectorscan-rs-sys/vectorscan/util/ng_find_matches.cpp:957-1044 | every walk that reads a stretch with at most k edits has a run that gets there, but for vertices at its end that can still be left out |
| `FuzzyMatching.ReportAligns` | vectorscan-rs-sys/vectorscan/util/ng_find_matches.cpp:263-357 | every report raised from a state is of a walk within the edits allowed, also when its last vertices are left out |
| `FuzzyMatching.StandingReports` | vectorscan-rs-sys/vectorscan/util/ng_find_matches.cpp:263-357 | every report of a walk within the edits allowed is raised |
| `Crc32c.TableStep` | vectorscan-rs-sys/vectorscan/src/crc32.c:514-521 | one table lookup is eight bit steps |
| `Crc32c.TableRecurrence` | vectorscan-rs-sys/vectorscan/src/crc32.c:105-501 | each further table is the byte step applied to the one before |
| `Crc32c.TableLinear` | vectorscan-rs-sys/vectorscan/src/crc32.c:53-501 | the tables are linear |
| `Crc32c.CrcConcat` | vectorscan-rs-sys/vectorscan/src/crc32.c:514-521 | splitting a buffer composes |
| `Crc32c.CrcOfWord` | vectorscan-rs-sys/vectorscan/src/crc32.c:528-577 | folding up to four bytes into the register at once is folding them one by one |
| `Crc32c.EightBytes` | vectorscan-rs-sys/vectorscan/src/crc32.c:543-568 | eight lookups in eight tables are eight byte steps |
| `Crc32c.TableByte` | vectorscan-rs-sys/vectorscan/src/crc32.c:514-521 | one turn of the byte loop |
| `Crc32c.FirstFour` | vectorscan-rs-sys/vectorscan/src/crc32.c:545-554 | four look-ups are the register and the first word followed by eight zero bytes |
| `Crc32c.SecondFour` | vectorscan-rs-sys/vectorscan/src/crc32.c:557-567 | four look-ups add the second word followed by four zero bytes |
| `Crc32c.ByteLoop` | vectorscan-rs-sys/vectorscan/src/crc32.c:514-521 | the loop computes the CRC by bit steps |
| `Crc32c.EightAtOnce` | vectorscan-rs-sys/vectorscan/src/crc32.c:543-568 | one turn of the main loop advances the CRC over its eight bytes |
| `Crc32c.EightLoop` | vectorscan-rs-sys/vectorscan/src/crc32.c:543-568 | the main loop computes the CRC of its part |
| `Crc32c.SlicingBy8` | vectorscan-rs-sys/vectorscan/src/crc32.c:528-577 | for every start value, alignment and contents, from the first aligned address on, slicing-by-8 equals the byte loop |
| `Crc32c.ReadsInsideIffLongEnough` | vectorscan-rs-sys/vectorscan/src/crc32.c:534-537 | in the unsigned arithmetic of the source it reads exactly the buffer if and only if the buffer reaches the first multiple of four |
| `Crc32c.ShortUnalignedBufferOverruns` | vectorscan-rs-sys/vectorscan/src/crc32.c:534-537 | a two-byte buffer at address 1, for which it does not |
| `CrcReference.CrcIsBitwise` | vectorscan-rs-sys/vectorscan/src/crc32.c:514-521 | the CRC is that of feeding the message bit by bit |
| `CrcReference.CrcIsRemainder` | vectorscan-rs-sys/vectorscan/src/crc32.c:53-102 | from zero it is the remainder of the message times x^32 under long division by 0x11EDC6F41 (section 12.1 of RFC 3720) |
| `CrcReference.ZeroBytesInjective` | vectorscan-rs-sys/vectorscan/src/crc32.c:514-521 | feeding zero bytes is one-to-one on states |
| `CrcReference.BurstIsDetected` | vectorscan-rs-sys/vectorscan/src/crc32.c:514-521 | equal-length messages that differ only inside four consecutive bytes have different CRCs |
| `CrcReference.Basis1` | vectorscan-rs-sys/vectorscan/src/crc32.c:68-102 | at the powers of two table 1 is that of the source, and its other entries are sums of these |
| `CrcReference.Basis2` | vectorscan-rs-sys/vectorscan/src/crc32.c:125-159 | at the powers of two table 2 is that of the source, and its other entries are sums of these |
| `CrcReference.Basis3` | vectorscan-rs-sys/vectorscan/src/crc32.c:182-216 | at the powers of two table 3 is that of the source, and its other entries are sums of these |
| `CrcReference.Basis4` | vectorscan-rs-sys/vectorscan/src/crc32.c:239-273 | at the powers of two table 4 is that of the source, and its other entries are sums of these |
| `CrcReference.Basis5` | vectorscan-rs-sys/vectorscan/src/crc32.c:296-330 | at the powers of two table 5 is that of the source, and its other entries are sums of these |
| `CrcReference.Basis6` | vectorscan-rs-sys/vectorscan/src/crc32.c:353-387 | at the powers of two table 6 is that of the source, and its other entries are sums of these |
| `CrcReference.Basis7` | vectorscan-rs-sys/vectorscan/src/crc32.c:410-444 | at the powers of two table 7 is that of the source, and its other entries are sums of these |
| `CrcReference.Basis8` | vectorscan-rs-sys/vectorscan/src/crc32.c:467-501 | at the powers of two table 8 is that of the source, and its other entries are sums of these |
| `CrcReference.GeneratorBits` | vectorscan-rs-sys/vectorscan/src/crc32.c:40-52 | the generator of the long division is 0x1EDC6F41, mirrored in the constant of the register |
| `Database.LoadStoreU64` | vectorscan-rs-sys/vectorscan/src/database.c:83-100 | little-endian words read back |
| `Database.ImageReadsBack` | vectorscan-rs-sys/vectorscan/src/database.c:189-197 | the image left by deserialising shows all header fields and the bytecode, at an offset that is 64-byte aligned in memory, clear of the fields and inside the allocation |
| `Database.Serialize` | vectorscan-rs-sys/vectorscan/src/database.c:62-110 | the bytes are the packed header, the bytecode and zero fill; a bad address, magic or version is refused with its own code |
| `Database.CheckCrc` | vectorscan-rs-sys/vectorscan/src/database.c:178-186 | on aligned bytecode the check compares the true CRC |
| `Database.DeserializeAt` | vectorscan-rs-sys/vectorscan/src/database.c:200-240 | every refusal and its code, and on success exactly the image, what follows it untouched |
| `Database.RoundTrip` | vectorscan-rs-sys/vectorscan/src/database.c:62-240 | for every intact database and 8-byte aligned address: deserialising its serialised form succeeds, restores header and bytecode, and serialising again gives identical bytes |
| `Database.AcceptedIsCanonicalised` | vectorscan-rs-sys/vectorscan/src/database.c:129-240 | whatever is accepted is intact and serialises to its canonical form |
| `Database.CorruptionIsCaught` | vectorscan-rs-sys/vectorscan/src/database.c:178-186 | corrupting bytecode inside four consecutive bytes is always answered with HS_INVALID |
| `Database.SizesAgree` | vectorscan-rs-sys/vectorscan/src/database.c:293-324 | both size queries give the length of the serialised form |
| `FindPaths.HasGreaterThan` | vectorscan-rs-sys/vectorscan/util/ng_corpus_generator.cpp:124-134 | true exactly when the vertex occurs more often than the limit |
| `FindPaths.OneWayInNeedsNoCheck` | vectorscan-rs-sys/vectorscan/util/ng_corpus_generator.cpp:186-194 | a vertex with one predecessor can be appended unchecked: on a walk its predecessor always occurs more often |
| `FindPaths.LengthBound` | vectorscan-rs-sys/vectorscan/util/ng_corpus_generator.cpp:137-217 | no path is longer than vertices times (limit + 1) |
| `FindPaths.WeightDrops` | vectorscan-rs-sys/vectorscan/util/ng_corpus_generator.cpp:154-215 | a path weighs more than all its extensions together: what makes the loop end, evictions included |
| `FindPaths.Replaced` | vectorscan-rs-sys/vectorscan/util/ng_corpus_generator.cpp:154-215 | replacing a path by its admissible extensions keeps every admissible walk within reach of the pool |
| `FindPaths.Grow` | vectorscan-rs-sys/vectorscan/util/ng_corpus_generator.cpp:165-214 | the loop over the out-edges of a path: what it emits, what it leaves in the pool, and that it evicts only from a full pool |
| `FindPaths.Search` | vectorscan-rs-sys/vectorscan/util/ng_corpus_generator.cpp:137-217 | it ends for every random choice; what it emits are completed walks from start on which no vertex occurs more than limit + 1 times, at most corpusLimit of them; if it stops short of that without an eviction it has emitted all such walks, and evictions need at least MAX_OPEN walks of which none extends another |
| `Dedupe.Deduper.Catchup` | vectorscan-rs-sys/vectorscan/src/report.h:55-117 | the in-place logs follow the step that the theorems are about |
| `Dedupe.TwoLogsAreASet` | vectorscan-rs-sys/vectorscan/src/report.h:55-117 | two logs that agree with a set at the two end offsets still open answer every later call as the set does |
| `Dedupe.DedupeIsExact` | vectorscan-rs-sys/vectorscan/src/report.h:55-117 | a scan that starts with uncleared logs and current offset ~0, wrap to 0 included, answers as an unbounded set of seen (key, end) pairs |
| `Dedupe.SkippedIffRepeated` | vectorscan-rs-sys/vectorscan/src/report.h:86-92 | a report is skipped exactly when an earlier call of the scan had its key and end offset |
| `SomLog.SomDeduper.ClearLog` | vectorscan-rs-sys/vectorscan/src/som/som_runtime.c:468-496 | one log is raised, keys ascending, and cleared |
| `SomLog.SomDeduper.FlushMatches` | vectorscan-rs-sys/vectorscan/src/som/som_runtime.c:498-535 | the flush, its dirty flags and the first-call case follow the step that the theorems are about |
| `SomLog.SomDeduper.Catchup` | vectorscan-rs-sys/vectorscan/src/report.h:93-112 | so does storing a match |
| `SomLog.SomMatchesAreExact` | vectorscan-rs-sys/vectorscan/src/som/som_runtime.c:498-535 | a scan, from any stale logs to the flush at its end, raises each stored key and end offset once, with the least start stored, in order of end offset |
| `SomLog.BestIsLeast` | vectorscan-rs-sys/vectorscan/src/report.h:98-104 | that start is no greater than any stored |
| `SomLog.BestIsStored` | vectorscan-rs-sys/vectorscan/src/report.h:98-104 | and is one of them |
| `LogicalCombination.IsLogicalCombination` | vectorscan-rs-sys/vectorscan/src/report.h:194-223 | whatever the operator bits held, the answer is the value of the formula at the leaves that are on; leaves and bits outside the range are unchanged |
| `LogicalCombination.IsPurelyNegativeMatch` | vectorscan-rs-sys/vectorscan/src/report.h:227-275 | it answers 1 exactly when no leaf named in the range is on and the formula holds with every leaf off, stale operator bits notwithstanding |
| `LogicalCombination.ValueIsFormula` | vectorscan-rs-sys/vectorscan/src/report.h:202-220 | one operator computed from the bits below it has the value of its formula |
| `LogicalCombination.UsedLeavesAreFormulaLeaves` | vectorscan-rs-sys/vectorscan/src/report.h:236-272 | when every operator of the range feeds a later one, the leaves named are the leaves of the formula |
| `LogicalCombination.PurelyNegativeIsMatch` | vectorscan-rs-sys/vectorscan/src/report.h:227-275 | a purely negative match is a match |
| `StreamRuntime.Stream.MaintainHistory` | vectorscan-rs-sys/vectorscan/src/runtime.c:478-508 | for every length, 0 and shorter than historyRequired included, the buffer becomes the last historyRequired bytes of its old contents and the data |
| `StreamRuntime.Stream.ScanInternal` | vectorscan-rs-sys/vectorscan/src/runtime.c:870-977 | status, callbacks, code, offset, shown history, the whole history buffer and the status left in the scratch, for each way a scan can end |
| `StreamRuntime.Stream.ReportEod` | vectorscan-rs-sys/vectorscan/src/runtime.c:632-710 | end-of-data callbacks; a broken stream makes none and leaves the scratch as it was |
| `StreamRuntime.HsScanStream` | vectorscan-rs-sys/vectorscan/src/runtime.c:980-996 | a busy scratch or missing data changes nothing; otherwise one scan, and the scratch is released |
| `StreamRuntime.HsResetStream` | vectorscan-rs-sys/vectorscan/src/runtime.c:1028-1055 | callbacks, code and stream after a reset: as opened, or untouched by the reset when the end-of-data part answers with an error |
| `StreamRuntime.HsResetAndCopyStream` | vectorscan-rs-sys/vectorscan/src/runtime.c:741-779 | callbacks, code and target, which becomes the source or is left alone with the code of the end-of-data part |
| `StreamRuntime.HsScanVector` | vectorscan-rs-sys/vectorscan/src/runtime.c:1107-1175 | callbacks and code are those of opening, scanning each block until one does not succeed, and the end-of-data step |
| `StreamRuntime.OpenScanClose` | vectorscan-rs-sys/vectorscan/src/runtime.c:980-1025 | the callbacks and codes of a client that makes the calls itself |
| `StreamRuntime.VectorIsOpenScanClose` | vectorscan-rs-sys/vectorscan/src/runtime.c:1107-1175 | the two make the same callbacks if and only if it is not the case that somebody listens, a missing block follows scans that succeed, and the end of data has something to report |
| `StreamRuntime.MissingIsInvalid` | vectorscan-rs-sys/vectorscan/src/runtime.c:877-879 | a run ends in HS_INVALID exactly when a missing block follows blocks whose scans succeed |
| `StreamRuntime.MissingBlockLosesReport` | vectorscan-rs-sys/vectorscan/src/runtime.c:1145-1153 | an engine and one missing block: the vectored scan is silent, the client hears a report |
| `StreamRuntime.VectorIgnoresScratch` | vectorscan-rs-sys/vectorscan/src/runtime.c:1107-1175 | callbacks and code of a vectored scan do not depend on what earlier calls left in the scratch |
| `StreamExpansion.ExpandLeaves` | vectorscan-rs-sys/vectorscan/src/stream_compress_impl.h:118-121 | what an expansion leaves of the stream it is made over: below a size of 8 every byte as it was, at 8 only the offset changed, from 9 on offset and status are those of the form, whatever the call answers |
| `StreamExpansion.ExpandedCompressesToForm` | vectorscan-rs-sys/vectorscan/src/runtime.c:1245-1276 | after an expansion that succeeds, over a stream in any state, compressing gives back the form |
| `StreamExpansion.ExpandMemory` | vectorscan-rs-sys/vectorscan/src/stream_compress.c:100-103 | code, offset and memory of expand_stream, whether it succeeds or not |
| `StreamExpansion.ExpandStream` | vectorscan-rs-sys/vectorscan/src/runtime.c:1271-1275 | the same over the parts a stream is kept in |
| `StreamExpansion.HsResetAndExpandStream` | vectorscan-rs-sys/vectorscan/src/runtime.c:1245-1276 | callbacks, code, scratch status and every byte of the stream: the end-of-data part, then the expansion, HS_INVALID and what was copied by then when the stated size is below the demand |
| `StreamCalls.BrokenStaysBroken` | vectorscan-rs-sys/vectorscan/src/runtime.c:632-1276 | through any calls, on it and on other streams of the same scratch, a terminated, exhausted or failed stream makes no callback and keeps every byte, until a reset or copy over it succeeds or an expansion over it gets past its end-of-data part with a size of at least 8 |
| `StreamCalls.SilentUntilRevived` | vectorscan-rs-sys/vectorscan/src/runtime.c:632-1276 | through any calls a broken stream is broken all the way if and only if none of them is a reset, a copy of a stream that is not broken or an expansion with a size of at least 9 of a form that is not broken, with nobody listening or no error in the scratch; and then it is silent |
| `StreamCalls.RevivedWhen` | vectorscan-rs-sys/vectorscan/src/runtime.c:632-1276 | the same for one call |
| `StreamCalls.FailedExpansion` | vectorscan-rs-sys/vectorscan/src/runtime.c:1245-1276 | an expansion that fails after its end-of-data part leaves a broken stream broken if and only if the size is below 9 or the status of the form is broken; from 8 on the offset is that of the form |
| `StreamCalls.TruncatedFormRevives` | vectorscan-rs-sys/vectorscan/src/runtime.c:1245-1276 | a terminated stream, a form cut by one byte and a scan: the expansion answers HS_INVALID and the scan reports |
| `StreamCalls.BrokenEod` | vectorscan-rs-sys/vectorscan/src/runtime.c:1007-1019 | on a broken stream the end-of-data part succeeds if and only if nobody listens, or the scratch is idle and holds no error; it makes no callback and changes nothing |
| `StreamCalls.BrokenCall` | vectorscan-rs-sys/vectorscan/src/runtime.c:632-1276 | every call on a broken stream is silent and leaves the scratch alone |
| `StreamCalls.ReleasedWhen` | vectorscan-rs-sys/vectorscan/src/runtime.c:741-1276 | a reset, copy or expansion over a broken stream succeeds exactly when nobody listens or the shared scratch holds no error, and an expansion only if also the stated size is at least what its form demands |
| `StreamCalls.ErrorOfAnotherStream` | vectorscan-rs-sys/vectorscan/src/runtime.c:1028-1055 | two streams: after the one fails, resetting the other, which was terminated before, answers HS_UNKNOWN_ERROR and leaves it terminated |
| `StreamCalls.Execute` | vectorscan-rs-sys/vectorscan/src/runtime.c:741-1276 | each call on the objects, expansions that fail included, is the step of the call sequence, in every byte of every stream |
| `StreamRuntime.CodeTellsStatus` | vectorscan-rs-sys/vectorscan/src/runtime.c:882-977 | the code of a scan is an error, a termination or success as the status it leaves says |
| `StreamChunks.RunSees` | vectorscan-rs-sys/vectorscan/src/runtime.c:632-977 | through any run and at the end of data, what the engine does may depend only on being shown the last min(historyRequired, offset) bytes accepted, their number and the block; the programs for an empty stream and for the end of data are asked only there |
| `StreamChunks.ScanSees` | vectorscan-rs-sys/vectorscan/src/runtime.c:894-960 | the same for one scan |
| `StreamChunks.EodSees` | vectorscan-rs-sys/vectorscan/src/runtime.c:632-710 | the same for the end of data |
| `StreamChunks.PartsInOrder` | vectorscan-rs-sys/vectorscan/src/runtime.c:632-960 | the order in which the parts of an engine are run, in a scan and at the end of data |
| `StreamChunks.TwoScans` | vectorscan-rs-sys/vectorscan/src/runtime.c:870-977 | two scans do what one scan of both blocks does, for an engine that does so when it is shown the end of the first block as history |
| `StreamChunks.RunIsOneScan` | vectorscan-rs-sys/vectorscan/src/runtime.c:870-977 | so does any sequence of blocks: the same callbacks, code, status and state, and the same offset and history unless the stream is broken |
| `StreamChunks.ChunkingKeepsCallbacks` | vectorscan-rs-sys/vectorscan/src/runtime.c:870-1025 | however the data is cut into blocks, a client hears the same callbacks, while scanning and at the end, and gets the same codes |
| `StreamChunks.WatchIsChunkable` | vectorscan-rs-sys/vectorscan/src/runtime.c:478-508 | an engine that reports by the last historyRequired + 1 bytes it can see is of this kind |
| `StreamChunks.WatchHears` | vectorscan-rs-sys/vectorscan/src/runtime.c:870-977 | in blocks of any size it reports exactly the ends that it finds in the whole text |
| `StreamChunks.EndsAre` | vectorscan-rs-sys/vectorscan/src/runtime.c:870-977 | these are the ends whose last historyRequired + 1 bytes are of interest |
| `StreamRuntime.NothingAfterStop` | vectorscan-rs-sys/vectorscan/src/runtime.c:882-892 | whatever is scanned after a stream breaks changes neither it nor the callbacks |
| `StreamRuntime.HistoryIsSuffix` | vectorscan-rs-sys/vectorscan/src/runtime.c:478-508 | after any scans the offset is the number of bytes accepted and the shown history their last min(historyRequired, offset) |
| `StreamRuntime.ChunkingDoesNotMatter` | vectorscan-rs-sys/vectorscan/src/runtime.c:77-85 | so offset and history do not depend on how the bytes were cut up |
| `Arena.Carve` | vectorscan-rs-sys/vectorscan/src/scratch.c:129-222 | the moving pointer leaves the regions of the definition |
| `Arena.CarvedInOrder` | vectorscan-rs-sys/vectorscan/src/scratch.c:129-222 | regions follow one another, and rounding adds at most the sum of alignments less one each |
| `Arena.InOrderIsDisjoint` | vectorscan-rs-sys/vectorscan/src/scratch.c:129-222 | such regions are pairwise disjoint and within bounds |
| `Arena.CheckedIsAligned` | vectorscan-rs-sys/vectorscan/src/scratch.c:129-222 | what is known of the pointer's alignment is enough for every region to be aligned |
| `Allocations.MmbitSizeGrows` | vectorscan-rs-sys/vectorscan/src/util/multibit_build.cpp:49-73 | more keys never take less room, across the change from flat to pyramid and between levels |
| `Allocations.FatbitIsEights` | vectorscan-rs-sys/vectorscan/src/util/fatbit_build.cpp:40-42 | fatbit sizes are multiples of eight |
| `Allocations.ScratchFits` | vectorscan-rs-sys/vectorscan/src/scratch.c:101-122 | all parts with all rounding, and the move to a cacheline, fit the size that is asked for, which is at most 425 bytes more than the parts |
| `Allocations.LogRegions` | vectorscan-rs-sys/vectorscan/src/scratch.c:196-208 | where the four dedupe logs and the SOM fatbit after them are carved |
| `Allocations.AllocScratch` | vectorscan-rs-sys/vectorscan/src/scratch.c:74-241 | every region of a scratch is aligned, clear of the others and ends inside the allocation measured from its unaligned base; each has the size and alignment of its field |
| `Allocations.ChAllocScratch` | vectorscan-rs-sys/vectorscan/chimera/ch_scratch.c:71-137 | the same of the Chimera scratch: 12 bytes of ovector and 24 of captures for each group, the pattern data, a queue of one 12-byte item for each pattern and the active multibit; and inside the pattern data one slice of captures for each pattern |
| `Allocations.InnerFits` | vectorscan-rs-sys/vectorscan/chimera/ch_scratch.c:46-68 | pattern data, padding and one slice for each pattern fit the size computed for them |
| `Allocations.LayoutChimera` | vectorscan-rs-sys/vectorscan/chimera/ch_compile.cpp:571-665 | the parts of the bytecode are aligned and disjoint, the bytecode is 64-byte aligned and clear of the header fields, and it uses at most 129 of its 132 bytes of slack; each part has the size the compiler computed for it |
| `Allocations.PatternFits` | vectorscan-rs-sys/vectorscan/chimera/ch_compile.cpp:385-466 | a pattern is written within its computed size unless study data exists but is empty and the compiled length is no multiple of eight; within its cacheline-rounded slot always |
| `Allocations.EmptyStudyOverruns` | vectorscan-rs-sys/vectorscan/chimera/ch_compile.cpp:385-466 | a pattern for which it is written past its computed size |
| `ScratchGrowth.HsAllocScratch` | vectorscan-rs-sys/vectorscan/src/scratch.c:244-389 | on success every field is the larger of what it was and what the database needs, and the scratch is not in use; a busy scratch is left alone; it fails for want of memory only when the allocator does |
| `ScratchGrowth.CoversAll` | vectorscan-rs-sys/vectorscan/src/scratch.c:281-362 | after any sequence of calls every field but the dedupe log covers every database so far |
| `ScratchGrowth.LogCoveredWhen` | vectorscan-rs-sys/vectorscan/src/scratch.c:364-368 | the dedupe log covers them too if and only if some database so far has dedupe keys |
| `ScratchGrowth.KeylessLogsAlias` | vectorscan-rs-sys/vectorscan/src/scratch.c:196-214 | for one database without dedupe keys all four logs have no bytes and lie on the fatbit of SOM slots |
| `ScratchGrowth.EveryDatabaseAccepted` | vectorscan-rs-sys/vectorscan/src/runtime.c:93-117 | validScratch accepts each of them, and each vectored one has room for a stream |

## Left out

- The Rust crates: wrappers over the C interface without an algorithm of their own.
- libpcre, Rose, HWLM and the NFA engines: parameters with the promises stated above; patterns that use \K are outside libpcre's promise.
- Hardware CRC, the dispatcher, version strings, information queries, printing, file loading and the command-line tools.
- ChimeraRuntime.Scan.CheckAllActive: the active multibit is a set of patterns here; that mmbit_all answers for the set is MultibitAll.All.
- ch_scan: null, alignment and magic checks of its arguments, and the copying of capture pairs out of PCRE's ovector (groups are taken as PCRE reports them).
- MatchQueue.Queue.Insert: heap indices are unbounded; the source's 32-bit index arithmetic is covered by the bound on the queue size.
- MultibitCodec.Decompress: specified for input that is the compressed form of some well-formed multibit; arbitrary bytes could lead the source outside its buffers.
- MultibitCodec.ReadBlocks: likewise.
- StreamCompress.Expand: likewise for the compressed form of some stream followed by anything; the result of the source is cut to an int, which matters only for forms whose size is a multiple of 2^32.
- StreamCompress.CompressStream: asked only with the size that sc_size announced, as its one caller does; iteration over a sparse iterator is modelled as iteration over the set keys with a membership test, and the loops step with the function Next, which MultibitIterate.IterateBig is proved to compute.
- mmbit_iterate_flat, mmbit_any, sparse and bounded iterators, scatter plans: the other ways to walk or build a multibit.
- Crc32c.SlicingBy8: buffers that end before the first multiple of four, for which the source reads outside them; `ReadsInsideIffLongEnough` is about those.
- MultibitIterate.IterateBig: continues only from a key that is set, as the source asks.
- hs_expand_stream: allocation and argument checks around Expand.
- StreamExpansion.HsResetAndExpandStream: null and scratch validity checks; bits 4 to 7 of a status byte, which no code looks at, are dropped; the stream's memory is kept in parts here and gathered for the expansion, where the source works in place; the buffer holds a compressed form, as for Expand.
- FindMatchesScan.GetAcceptMatches: the accept and report caches are comprehensions over the graph instead of tables.
- FuzzyMatching.ApproximateMatching: graphs wired as NGHolder wires them, without virtual starts (FuzzyMatching.FuzzyEnds has those, for ends) and without zero-width assertions or UTF-8, which the compiler refuses with a distance (src/nfagraph/ng_fuzzy.cpp:672-682); with distance 0 ExactMatching has assertions, UTF-8 and virtual starts.
- FuzzyWords.WordsWithinDistance: likewise, and every ordinary vertex reads some byte.
- Database.DeserializeAt: hs_deserialize_database differs by allocating its memory first; allocation failure is not modelled.
- FindPaths.Search: random numbers are a parameter; a corpus limit of 0, for which the source draws from an empty pool, is required away; paths emitted once for each edge into accept and acceptEod are not counted.
- Dedupe.Deduper.Catchup: whether the flush of stored matches makes the user halt is a parameter; the flush itself is in SomLog.
- SomLog.SomMatchesAreExact: states scans in which the user does not halt; a halt ends the scan.
- LogicalCombination.IsLogicalCombination: bits of the vector are an array of booleans; how the compiler lays formulas out in post-order is not modelled.
- hs_open_stream, hs_copy_stream, hs_close_stream: null, database and scratch validity checks, allocation and freeing.
- StreamCalls.Execute: calls made from inside a callback, which the in-use flag refuses; a closed stream is not used again by a correct client, and is kept in the sequence as its last step left it.
- StreamRuntime.Stream.ScanInternal: scratch contents other than the status and the in-use flag are taken not to influence matching; the 64-bit stream offset does not wrap; the filler bytes that init_stream writes at opening lie in a history buffer that may hold anything here.
- hs_scan (block mode), exhaustion keys, and the delivery of single reports: branch-by-branch code around the engine.
- Allocations.AllocScratch: sizes are unbounded; sizeof struct mq, struct queue_match and struct hs_scratch are parameters with their alignment.
- ScratchGrowth.HsAllocScratch: database validation, magic and alignment of the old scratch, and the memory of the freed one; ch_alloc_scratch raises two fields in the same way.
- Concurrent use of one scratch beyond the in-use flag.
