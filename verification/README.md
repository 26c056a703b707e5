# The sparse virtual file, modelled and proved

`svfsc` keeps parts of a file in memory. A sparse virtual file is a map from file position to a
block of bytes. Writes coalesce the blocks that they meet, `has` and `need` ask what is there and
what is missing, `lru_punt` evicts, and a client fetches what it needs and reads. This project
models that in Dafny and proves what it promises. Where it does not keep the promise the project gives
inputs, and proves when it does: exactly, but for requests and writes that meet blocks which overlap,
where "Left out" says how far.

| file | content |
|---|---|
| `SeekReads.dfy` | lists of (position, length) pairs, their normal form, the greedy merger |
| `Blocks.dfy` | block lists, the bytes they hold, canonical lists as maximal runs |
| `Writes.dfy` | what a write makes of a block list, and what that means for the bytes held |
| `Coalescing.dfy` | the loops of the two coalescing writes |
| `Differences.dfy` | comparing a write with the bytes held: when it stops, what it leaves then, what it lets through |
| `Walks.dfy` | the walk of `need` over the blocks, with and without overlaps |
| `Gaps.dfy`, `Seams.dfy` | missing runs; positions where blocks touch without being joined, and what a write does to them |
| `Eviction.dfy` | what an LRU punt keeps |
| `SparseVirtualFile.dfy` | the class, its fields and its loops |
| `Runs.dfy`, `Demands.dfy` | runs of writes of one file; what a list of demands comes to |
| `Routing.dfy` | routing of runs of writes, and what is needed, read off the positions held |
| `Forecasts.dfy` | what a run of demands comes to, foretold from positions held and seams |
| `Overlapping.dfy` | files in which one write made blocks overlap |
| `Client.dfy`, `Pickle.dfy` | the client protocol with its server; pickling |

The class holds the blocks as a sequence in key order, with the counters of `src/cpp/svf.h`. An
iterator is an index. `Inv()` is what every operation keeps, but for a write that stops at a
difference: increasing keys, no empty block, distinct touches below the counter, `bytesTotal` equal
to the sum of the block sizes, and the accounting of erased, punted and written bytes and blocks.
`Valid()` adds that no two blocks overlap. `Canonical` says that the blocks are the maximal runs of
the bytes held. Positions and counters are unbounded naturals, so every subtraction in the loops is
proved not to underflow, but for one: the walk of `need` over blocks that overlap can overshoot the
request, and there the model wraps around as `size_t` does (`AsSize`). The build modelled is the one
that `setup.py:45-50` makes, in which asserts do nothing; those on positions and lengths in the
writes and in `need()` are proved to hold where no blocks overlap. Lemmas switch off automatic
induction; their bodies are the proofs.

## Where the code is narrower than its documentation

- "Any write will coalesce these blocks where possible" (`README.rst:22`). A write that starts
  strictly inside a gap goes to `_write_new_block` without a look at the block behind the gap
  (`src/cpp/svf.cpp:478-480`). `Misrouted` names these writes. `WrittenIsCanonical` proves that a write
  keeps the blocks canonical if and only if it is not misrouted, and `MisroutedExample` gives one.
  A misrouted write that goes further overlaps the block and is not compared with it
  (`OverlapKeepsBothBytes`).
- "If `compare_for_diff` is True and given data is different than that seen before" a write raises
  (`src/cp/_cSVF.cpp:390-391`). `_throw_diff` throws only if one byte differs (`src/cpp/svf.cpp:90-100`), and
  for a block behind the one appended to it looks at the first byte of the wrong block
  (`src/cpp/svf.cpp:375`). `Stops` says exactly when a write stops, and it never does at bytes that agree
  (`StopsOnlyAtDifferences`). `LetsThroughMeans` proves exactly when a write that compares completes and
  yet changes a held byte, `WrittenIsThere` when the bytes written are there afterwards; `KeepsOldByte`,
  `OverwritesHeldByte` and `LooksInWrongBlock` are inputs that show it.
- "Only new data up to this point will be written" by a write that raises (`src/cp/_cSVF.cpp:390-392`).
  `StoppedMeans`: unless it stops at the block it is appended to, blocks touch afterwards, or the blocks
  passed and the new data are lost and the byte count is too high.
- "need() can say what exactly is required" (`src/cpp/svf.cpp:50`). After a misrouted write that overlaps a
  block it may not. `WalkIsRight`: where no block sticks out in front of the one that the request starts in,
  the answer is right if and only if no overlap lies in front of something missing. `AsksForHeld` has a case
  in which one sticks out and bytes held are asked for. `OverlapMisleads` is an input on which bytes that are
  missing are not asked for, and one on which the length wraps around.
- The client ends in `assert 0` (`src/cpy/simulator.py:160`) for some demand lists and one unchanging file. A
  misrouted write that stops at the next block leaves a *seam*, and no read can cross it. `Client.Run`
  proves how every run ends, with any greedy length, from the demands alone (`Foretold`), up to the first
  miss in a file whose blocks overlap. Such a miss can end in the `assert 0` too (`MisledDemandFails`).
  Without a greedy length beyond the demands a run ends well if and only if no demand, when its turn comes,
  has a seam inside it (`AllServed`). `FailsWithoutSeams` says what that means for one demand,
  `GapDemandFails` gives a failing list, and `AscendingEndsWell` proves that ascending demands never fail,
  with any greedy length.
- `integrity()` looks touches up in a set that it never fills (`src/cpp/svf.cpp:934,951`), so it
  never reports a duplicate touch. `Integrity` states what it does detect.
- Pickling a file that has seams restores other blocks, and one whose blocks overlap may not be restored at
  all: `SetState` proves that the restored blocks are the pickled ones if and only if those were canonical,
  and when the replay stops.

## Model

| member | source | states |
|---|---|---|
| `SeekReads.SeparatedIsUnique` | src/cpp/svf.cpp:746-787 | a list of non-empty, strictly separated entries is determined by the positions it covers, so need lists and block lists are normal forms |
| `SeekReads.MinimiseSeekReads` | src/cpp/svf.cpp:746-769 | any list, also one of empty or unsorted entries, is read in groups: each as far as the entries that start within what those before reach; for lists that fall back only onto positions seen before: the output covers every input byte, is sorted and strictly separated, has entries of at least the greedy length and no more of them than the input, and over-reads only within the first greedy bytes of an entry |
| `SeekReads.MergeAllGroups` | src/cpp/svf.cpp:746-769 | what the merger computes turn by turn is a reading of the list in groups |
| `SeekReads.GroupsAreUnique` | src/cpp/svf.cpp:746-769 | there is one way to read a list in groups, so the last two rows decide the output for every list and greedy length |
| `SeekReads.MergeOfZeroIsExact` | src/cpp/svf.cpp:736-769 | with greedy length 0 the merger covers the input exactly |
| `SeekReads.MergeOfMerge` | src/cpp/svf.cpp:717-723 | merging greedily what was found, in whatever order and pieces, is merging the exact runs of it greedily |
| `SeekReads.Sort` | src/cpp/svf.cpp:713 | the requests in increasing order of position, those at one position in increasing order of length, none lost |
| `Blocks.ShapeFollowsContent` | src/cpp/svf.cpp:776-787 | canonical block lists with equal content have equal blocks and bytes |
| `Blocks.ExtentsFollowHeld` | src/cpp/svf.cpp:776-787 | the positions held decide `blocks()` |
| `Blocks.CanonicalIsMaximalRuns` | src/cpp/svf.h:281-286 | the blocks of a canonical list are exactly the maximal runs of positions held |
| `Blocks.SumIsHeld` | src/cpp/svf.h:444-445 | the sum of the block sizes is the number of positions held |
| `Writes.WrittenIsCanonical` | src/cpp/svf.cpp:452-493 | a write keeps the blocks maximal runs if and only if it is well routed |
| `Writes.WrittenIsDisjoint` | src/cpp/svf.cpp:452-493 | a write leaves no position in two blocks if and only if it does not run into the block behind the gap it starts in |
| `Writes.MisroutedExample` | src/cpp/svf.cpp:476-480 | a concrete write after which adjacent blocks stay apart |
| `Writes.OverlapKeepsBothBytes` | src/cpp/svf.cpp:476-480 | an overlapping misrouted write leaves both the old and the new byte of one position in the file, unchecked |
| `Writes.OverlapSwallows` | src/cpp/svf.cpp:476-480 | an overlapping misrouted write after which a block ends in front of the end of the one before |
| `Writes.WrittenHolds` | src/cpp/svf.cpp:452-493 | the positions held grow by exactly those written |
| `Writes.WrittenContent` | src/cpp/svf.cpp:201-250 | which byte wins: in the original extent of the block written to the old one, elsewhere in the write the new one, outside it nothing changes |
| `Writes.AgreeingContent` | src/cpp/svf.cpp:328-386 | an agreeing write adds its bytes and changes none |
| `Writes.WrittenSum` | src/cpp/svf.cpp:201-256 | the byte count grows by the number of positions that were not held |
| `Writes.WrittenExtentsIgnoreData` | src/cpp/svf.cpp:312-408 | where the blocks lie after a well-routed write does not depend on the bytes |
| `Writes.WrittenTouches` | src/cpp/svf.cpp:113-132 | touches stay distinct and below the counter, the newest goes to the block that covers the write, and there is at most one block more |
| `Coalescing.TurnKeeps` | src/cpp/svf.cpp:190-242 | a turn of the loop that puts a new block in front of old ones keeps its invariant, with the exact bytes and byte count |
| `Coalescing.AppendTurnKeeps` | src/cpp/svf.cpp:343-401 | a turn of the loop that appends to an old block keeps its invariant, with the exact bytes and byte count |
| `Coalescing.RouteMeans` | src/cpp/svf.cpp:452-485 | the branches of `write` lead to the block list after the write, and writes that are not compared agree or are misrouted |
| `Differences.FirstOfStretch` | src/cpp/svf.cpp:90-100 | comparing a stretch and then looking at its first byte throws if and only if that byte differs |
| `Differences.StopsOnlyAtDifferences` | src/cpp/svf.cpp:76-101 | a write never stops at bytes that agree |
| `Differences.StopsAppendedTo` | src/cpp/svf.cpp:324-386 | a write appended to a block stops if and only if the first byte written differs from the one held there, or some byte of a block behind differs and the byte written at its start is not the first of the block appended to |
| `Differences.StopsInGap` | src/cpp/svf.cpp:203-214 | a write appended to none stops if and only if it starts in front of all blocks and differs from the first byte of one that it reaches |
| `Differences.ChangesMeans` | src/cpp/svf.cpp:211-217 | a completed write changes a held byte if and only if it differs from a block that starts behind its own start |
| `Differences.WrittenIsThere` | src/cpp/svf.cpp:328-340 | the bytes of a completed write are there if and only if they agree with the block they were appended to |
| `Differences.LetsThroughMeans` | src/cpp/svf.cpp:371-386 | exactly when a write that compares completes and yet changes a held byte |
| `Differences.KeepsOldByte` | src/cpp/svf.cpp:332-337 | a differing write that completes and leaves the old byte |
| `Differences.OverwritesHeldByte` | src/cpp/svf.cpp:206-214 | a differing write that completes and changes a held byte |
| `Differences.LooksInWrongBlock` | src/cpp/svf.cpp:373-376 | a write of which even the first byte in a block differs from it, and that completes and changes it |
| `Differences.StoppedMeans` | src/cpp/svf.cpp:90-98 | a write that stops leaves the file alone only at the block it is appended to; if not, blocks touch or the byte count is too high |
| `SparseVirtualFiles.SparseVirtualFile.constructor` | src/cpp/svf.h:297-314 | a new file is valid and empty, with the configuration given |
| `SparseVirtualFiles.SparseVirtualFile.Default` | src/cpp/svf.h:270-304 | a new file with the default configuration compares |
| `SparseVirtualFiles.SparseVirtualFile.WriteNewBlock` | src/cpp/svf.cpp:113-132 | inserts one block with the next touch; the insertion cannot fail |
| `SparseVirtualFiles.SparseVirtualFile.WriteNewAppendOld` | src/cpp/svf.cpp:178-262 | for any block whose predecessors end before the write: the new block, its tail, the blocks absorbed, the byte count; it stops if and only if it compares and the first byte shared with a block behind differs, and what is left then |
| `SparseVirtualFiles.SparseVirtualFile.AbsorbIntoNew` | src/cpp/svf.cpp:190-250 | one turn of that loop |
| `SparseVirtualFiles.SparseVirtualFile.WriteAppendNewToOld` | src/cpp/svf.cpp:312-408 | the same for appending to a block; it stops if and only if it compares and the first byte shared with that block differs, or a block behind differs and the new byte there is not the first byte of the block appended to |
| `SparseVirtualFiles.SparseVirtualFile.AbsorbIntoBase` | src/cpp/svf.cpp:342-401 | one turn of that loop |
| `SparseVirtualFiles.SparseVirtualFile.AbsorbNext` | src/cpp/svf.cpp:367-400 | what that turn does with the next block |
| `SparseVirtualFiles.SparseVirtualFile.Write` | src/cpp/svf.cpp:452-493 | the block list after the write, the counters and the invariant; when it stops (if and only if), and what is left then; of a file with overlapping blocks, for writes that meet no block |
| `SparseVirtualFiles.SparseVirtualFile.Has` | src/cpp/svf.cpp:56-74 | true if and only if one block spans the request |
| `Seams.SpannedMeansHeld` | src/cpp/svf.cpp:56-74 | one block spans a request if and only if all of it is held and no seam lies inside it |
| `SparseVirtualFiles.SparseVirtualFile.Read` | src/cpp/svf.cpp:503-547 | succeeds if and only if `Has`, for every length; gives exactly the content slice; touches the block; on failure the right error and nothing changed |
| `SparseVirtualFiles.SparseVirtualFile.BlockList` | src/cpp/svf.cpp:776-787 | the positions and lengths of the blocks in order |
| `SparseVirtualFiles.SparseVirtualFile.Integrity` | src/cpp/svf.cpp:928-964 | no error if and only if all blocks are non-empty, pairwise disjoint and pairwise not adjacent and the byte count matches; an error is that of the first block at which this ends, an empty block before its neighbours; two errors are never reported |
| `SparseVirtualFiles.SparseVirtualFile.NeedRuns` | src/cpp/svf.cpp:594-669 | the walk over the blocks: exactly the maximal missing runs, with the asserts of the code; where blocks overlap, when it is right (if and only if, where no block sticks out in front), and that no entry goes beyond the request but one last that starts behind its end, of which the length wraps around at 2^64 |
| `SparseVirtualFiles.SparseVirtualFile.Need` | src/cpp/svf.cpp:581-674 | exactly the maximal missing runs of the request, with a greedy length longer than the request their greedy merge; where blocks overlap, when |
| `Walks.WalkIsRight` | src/cpp/svf.cpp:594-669 | where no block sticks out in front of the one that the request starts in: the walk finds exactly the missing runs if and only if no overlap lies in front of something missing |
| `Walks.AsksForHeld` | src/cpp/svf.cpp:609-618 | where a block sticks out in front, bytes that it holds are asked for again |
| `Walks.OverlapMisleads` | src/cpp/svf.cpp:657-665 | a write to a valid file after which missing bytes are not asked for, and after which 18446744073709551602 bytes are |
| `Walks.WholeWalk` | src/cpp/svf.cpp:594-669 | of every walk: when it is right, where it wraps around, and what it answers an empty request |
| `Seams.SpannedMeansNothingMissing` | src/cpp/svf.cpp:56-74 | in a canonical file nothing is needed if and only if the request can be served |
| `SparseVirtualFiles.SparseVirtualFile.NeedMany` | src/cpp/svf.cpp:707-724 | the requests sorted by position, then length; exactly the missing bytes of the union of all of them, sorted and strictly separated, also when requests overlap; with a greedy length the greedy merge of those runs and nothing else; where blocks overlap, if every request is one that the walk answers right; for all others, also empty requests, the merge of their walks |
| `Gaps.GatherMore` | src/cpp/svf.cpp:717-723 | need lists of sorted requests, concatenated, fall back only onto bytes already listed |
| `Gaps.NeedManyFollowsUnion` | src/cpp/svf.cpp:707-724 | only the union of the requests matters, with any greedy length |
| `Gaps.NeedManyOfOne` | src/cpp/svf.cpp:707-724 | needing many of one request is needing it; where the greedy length does not exceed the request only the former heeds it |
| `SparseVirtualFiles.SparseVirtualFile.Clear` | src/cpp/svf.cpp:846-871 | a valid empty file with all counters reset |
| `SparseVirtualFiles.SparseVirtualFile.Erase` | src/cpp/svf.cpp:881-912 | removes exactly the block that starts at the position and accounts for it; fails if and only if no block does, and then changes nothing |
| `SparseVirtualFiles.SparseVirtualFile.BlockTouches` | src/cpp/svf.cpp:989-1013 | a bijection of touches with blocks |
| `SparseVirtualFiles.SparseVirtualFile.LruPunt` | src/cpp/svf.cpp:1023-1042 | leaves blocks touched last: more than one only if they are below the bound, and any more of them would not be; with one block or less than the bound all stay; never nothing; returns the bytes removed; the erase never fails |
| `Eviction.PuntedMeans` | src/cpp/svf.cpp:1029-1032 | the same of every list that a punt may leave: it goes on while there is more than one block and the bound is reached |
| `Eviction.PuntIsUnique` | src/cpp/svf.cpp:1015-1042 | the bound and the touches decide what a punt leaves |
| `Eviction.LastWrittenSurvives` | src/cpp/svf.cpp:188-188 | the block written last survives the punt that follows |
| `Eviction.LastReadSurvives` | src/cpp/svf.cpp:543-543 | the block read last survives the punt that follows |
| `Runs.RunHolds` | src/cpp/svf.cpp:452-493 | well-routed writes of one file hold exactly the positions they cover, with the file's bytes, in canonical blocks |
| `Runs.OrderDoesNotMatter` | src/cpp/svf.cpp:312-408 | two runs of well-routed writes that cover the same positions of one file end with the same blocks, bytes and byte count |
| `Seams.WriteSeams` | src/cpp/svf.cpp:452-493 | the seams after any write that overlaps no block unseen: those that it covers are gone, and one is left if and only if it stops at a block behind the gap it starts in |
| `Seams.MisroutedByHeld` | src/cpp/svf.cpp:452-485 | the positions held decide which writes, also into or over blocks, are misrouted, and which of them overlap a block |
| `Demands.FailsWithoutSeams` | src/cpy/simulator.py:135-160 | a demand on a file without seams fails if and only if it starts in a gap, not right behind a held byte, and runs into bytes held behind the gap |
| `Demands.AscendingAllServed` | src/cpy/simulator.py:126-171 | demands in ascending order are all served |
| `Demands.GapDemandFails` | src/cpy/simulator.py:153-160 | three demands of which the last ends in the failing assert |
| `Routing.RoutedByHeld` | src/cpp/svf.cpp:452-493 | the positions held decide whether every write of a run is well routed, and such a run adds exactly its positions |
| `Routing.NeedIsUnique` | src/cpp/svf.cpp:589-674 | the positions held decide what is fetched for a demand, with any greedy length |
| `Forecasts.AscendingRunRouted` | src/cpy/simulator.py:126-171 | demands in ascending order cause only well-routed writes, with any greedy length |
| `Forecasts.AscendingEndsWell` | src/cpy/simulator.py:126-171 | so such runs always end well |
| `Forecasts.WriteForetold` | src/cpp/svf.cpp:452-493 | a write does to the positions held and the seams what is foretold, and overlaps a block if and only if that is |
| `Forecasts.AnswerIsForetold` | src/cpp/svf.cpp:589-674 | what is needed is the list made by looking at one position after the other |
| `Forecasts.OverlapIsWhole` | src/cpp/svf.cpp:670-672 | what is needed makes blocks overlap only with a greedy length beyond the demand, and is then one write of that length where the demand starts |
| `Overlapping.OverlapIsBeside` | src/cpp/svf.cpp:476-480 | an overlapping write puts one block beside the others, which stay, and all hold the file's bytes |
| `Overlapping.HitMeansBeside` | src/cpp/svf.cpp:65-71 | which requests such a file can serve, from the cache before and the block beside |
| `Overlapping.MisledDemandFails` | src/cpy/simulator.py:135-160 | a demand that still misses after all that was asked for is written |
| `Forecasts.RoutedEndsWell` | src/cpy/simulator.py:120-171 | a run of well-routed writes ends well, with any greedy length |
| `Forecasts.PlainRun` | src/cpy/simulator.py:120-171 | without a greedy length beyond the demands: a run ends well if and only if no demand has a seam inside it; however it ends, the bytes fetched are those added to the cache, as many as were; and the hits are those of the demands |
| `Forecasts.NoneTwice` | src/cpy/simulator.py:141-150 | GETs that are together as long as what they cover share no position |
| `Client.Server.Get` | src/cpy/simulator.py:89-102 | the bytes asked for, the new position, and one GET more in the log |
| `Forecasts.PlainDemand` | src/cpy/simulator.py:137-153 | after everything needed is written the demand is held, and the seams are those computed from the demand |
| `Client.FetchAll` | src/cpy/simulator.py:141-150 | every entry is one GET and one write, in that order; the block list is that of all the writes in turn, and holds the file's bytes; the positions held and seams are those foretold, or those with the last write beside if that overlaps, which it does if and only if foretold; nothing is read |
| `Client.FetchNeeded` | src/cpy/simulator.py:135-160 | of a demand that is not here: the GETs and writes are exactly those foretold, and whether it can be read then (if and only if) |
| `Client.Serve` | src/cpy/simulator.py:126-171 | of every demand on a file without overlaps, with any greedy length: how it ends (if and only if), whether it is a hit, which GETs are made (none for a hit), the block list then; when it ends well, that it is read once, from the last block that starts at or before it, which is touched, and the file's bytes, also if its write made blocks overlap |
| `Client.ServeBeside` | src/cpy/simulator.py:126-134 | after that: whether a demand is a hit; if it is, that it is read, from which block, and the file's bytes, and if not, that nothing changes |
| `Client.ServeAll` | src/cpy/simulator.py:126-171 | the loop of a run |
| `Client.Run` | src/cpy/simulator.py:120-171 | over whole runs, with any greedy length: how the run ends, the hits, every GET in turn, the positions held (those of the GETs) and the seams are those foretold from the demands; as many writes as GETs and as many reads as demands served, each with the file's bytes; hits and misses add up; without greed when it ends well (if and only if), that no position is in two GETs, and that bytes fetched equal bytes written, bytes held and, at a good end, the size of the union of the demands |
| `Pickle.GetState` | src/cp/_cSVF.cpp:1243-1271 | the blocks in order with their bytes, each read once; afterwards the touches follow the file order and the content is unchanged |
| `Pickle.SetState` | src/cp/_cSVF.cpp:1364-1397 | replaying restores the content, and the blocks themselves, touched in order, if and only if they were canonical; of blocks that overlap it restores the positions with the bytes of the first block that has each, or stops, if and only if the first byte of a block differs from the one that the first block before has there |
| `Pickle.StopsWhereFirstDiffers` | src/cp/_cSVF.cpp:1394-1394 | the replay of a block stops if and only if the pickled state has another byte at its start in the first block before that has that position |
| `Pickle.ReplayWins` | src/cp/_cSVF.cpp:1374-1397 | after every block replayed each position has the byte of the first block that has it |
| `Pickle.SameEviction` | src/cp/_cSVF.cpp:1243-1397 | a source that was read out and its copy keep the same blocks after punts with equal bounds |

## Left out

- Write: requires at least one byte (the helpers assert it, `src/cpp/svf.cpp:181,316`), a file not left by a write that stopped, and where blocks overlap a write that meets no block. An overlapping write can put a block where it ends in front of the end of the one before (`OverlapSwallows`). If a later write absorbs such blocks, `src/cpp/svf.cpp:371` subtracts the larger of two unsigned positions from the smaller, and what is compared and copied lies behind the block; and a block that starts in front of the position reached is compared and copied from its start, not from that position (`src/cpp/svf.cpp:203-227`, `374-394`).
- Write: the build with asserts, in which a difference that is let through, a misrouted write, and a walk of `need()` over an overlap, end the program.
- Need: where blocks overlap and one sticks out in front of the block that the request starts in, only the case of `AsksForHeld` is decided; with a greedy length longer than the request an answer merged from wrong runs may happen to be right.
- NeedMany: where blocks overlap and the walk answers one of the requests wrong, no more is stated than that it merges those walks.
- Client.FetchAll: takes lists of which only the last write makes blocks overlap, as `need()` gives them for every demand (`OverlapIsWhole`).
- Client.Run: demands are not empty; a run ends at the first miss after a write that made blocks overlap (`MissAfterOverlap`), where the client goes on with what `need()` answers then.
- Client.Run: times, bandwidth, logging and the message passing of the simulator.
- NeedMany: the sorted requests are a second result instead of a change of the caller's list.
- Pickle.SetState: takes states whose blocks are not empty and in increasing order, as `__getstate__` makes them; checks of the dictionary and its version are left out.
- The configuration is not part of a pickle, so a restored file has the default one.
- `overwrite_on_exit`, which scrubs memory before it is released; timestamps; `size_of`, `block_size`, `last_file_position`, `file_mod_time_matches`.
- Overflow of `size_t` in `fpos + len` and wrap of the 32-bit touch counter.
- Locks: every operation is one atomic step.
- `SparseVirtualFileSystem`, a keyed container of these files, which would only add easy members.
- Python argument parsing, reference counts and error translation.
