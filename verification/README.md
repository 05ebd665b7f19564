# AFL++: proofs about its algorithms

A Dafny model of the parts of AFL++ where many steps have to keep one promise: the streaming
hashes, the corpus minimiser, the havoc mutation engine, the preallocating list, the coverage
bitmaps, the LTO instrumentation pass, the growth allocator and the wide arithmetic. Code that
changes state in place is modelled by classes, arrays and loops, each proved against a function
or predicate; the promises of the source are then theorems about those.

`dafny verify dfyconfig.toml` checks everything.

## What is modelled

**Streaming hashes** (`Xxh3Stripes`, `Xxh3State`, `Xxh3History`, `Xxh32`, `Xxh64`, `XxhLanes`).
One definition absorbs an input stripe by stripe. The one-shot block loop and the resumable
stripe consumer are both proved to compute it, and the streaming state keeps an invariant about
its lanes, its buffer, the 64 bytes kept at the top of that buffer, its counters and its cached
secret. The result is a theorem over whole histories of resets, updates and digests. The mixing
functions are parameters (`Kernel`, `Mixer`), as the source itself passes `f_acc` and
`f_scramble`. What they are given is spelled out in bytes: `Xxh3State.LongHash` says which input
and secret bytes go into each step of a long hash, `Xxh32.HashInWords` and `Xxh64.HashInWords` give the
older hashes as folds over words. So the theorems hold for the scalar code and for every vector back end that
computes the same lanes, and `Xxh3Lanes` proves that the portable forms do: scalar rounds in any
order, the two-lane vector step and the NEON mix of both. `Xxh3Lanes.LaneKernel` is the kernel made of
them; `Xxh3History.StreamedIsInPlace` joins the two halves. `XxhAvalanche` is the final mix of the
short hashes, which is injective.

**Corpus minimiser** (`CminWorker`, `CminProtocol`, `CminInvariant`, `CminReach`, `CminSelect`,
`CminMinimise`). The dispatcher, the workers and main are a state machine whose steps may
interleave in any way; messages from different workers may overtake each other. An invariant of
all reachable states gives conservation of messages, absence of deadlock and the length of every
run. The merged arrays are the true minima whatever the schedule, what main reads in
`trace_info` is always there and reads back as the trace that was written, and the two selection
phases end with exactly the coverage of all files: first the files that alone hold a tuple, then
the smallest file for a rarest tuple still missing, again and again.

**Havoc** (`RandBelow`, `Sattolo`, `AsciiNum`, `HavocEdits`, `HavocEffects`, `HavocDraws`, `Havoc`,
`Memory`). Random numbers come from an arbitrary tape of 64-bit draws; every request and its answer are
recorded. A run that would need more draws than the tape holds is cut short and marked `dry`, so a
statement about every tape and every run that is not dry is a statement about every terminating
execution. All 37 mutations edit one buffer in place through a scratch buffer. `HavocDraws` says for each
of them what it asks for and which edit, retry or omission the answers stand for; `Havoc` proves that
the code does that, step by step and for whole runs, so the tape decides the result. What an
edit does to bytes and numbers is said once more, independently, in `HavocEffects`, and the edits have
laws of their own: what keeps the length in bounds, what undoes what. The shuffle is proved to be
a single cycle, the bounded draw to be uniform, the decimal arithmetic to stay inside 64 bits.

**List** (`PreallocList`). Heap elements from the 64 slots or from malloc, linked both ways. The
ring of elements, the slot states, the slot counter and the set of live allocations agree after
every operation, and any run of operations behaves as the sequence of items does.

**Coverage bitmaps** (`CoverageBytes`, `Coverage64`, `Coverage32`, `CoverageWidths`). Machine
words are bit vectors. New coverage is defined byte by byte; the word loops of both widths are
proved to compute it, to fold to the history of all traces and to agree with each other. The class
tables are parameters.

**LTO pass** (`LtoPruning`, `LtoIds`). Dominance is defined by paths; it is also characterised by cuts,
post-dominance by runs, and so are the blocks that are instrumented
(`LtoPruning.InstrumentedExactly`). The main result says that
the blocks left out lose nothing: with the critical edges split, the instrumented blocks that a
run executes determine all the blocks it executes, and all the edges it takes. Post-dominance is not
needed for this: the blocks with one predecessor that are no full dominators are enough
(`LtoPruning.EssentialBlocksSuffice`). With critical edges left in it fails. Edge ids are proved not to collide across functions, sites and
contexts.

**Allocator and arithmetic** (`GrowthAlloc`, `WideMul`, `Binary`, `LittleEndian`). The rounding to
powers of two on words of 64 bits, the growing buffer with its sizes and the sum of its allocations, and
the limb arithmetic of `xxhash.h` and `t1ha_bits.h`.

## Where the code differs from what it says

- `XXH3_128bits_digest` tests `seed` where the 64-bit digest tests `useSeed`
  (`include/xxhash.h:7856`): a short input after a reset with secret and seed 0 is hashed with the
  external secret. `Xxh3History.Digest128Exactly` gives the exact condition, and
  `Xxh3History.SeedZeroDigestDiffers` a case with the library's own hash of the empty input.
- `MUT_ARITH32BE` adds inside the inner swap (`include/afl-mutations.h:2070`), so it adds in
  little-endian order. `MUT_ARITH32BE_` undoes it for one word and one amount only
  (`HavocEdits.Arith32BEUndoneExactly`).
- `MUT_ASCIINUM` gives `snprintf` the size of a pointer (`include/afl-mutations.h:2515`), so at most
  seven characters are printed. `MUT_INSERTASCIINUM` overwrites, whatever its name says.
- `next_pow2` has no shift by 32 (`include/alloc-inl.h:606-625`). `GrowthAlloc.RoundsUp` and
  `GrowthAlloc.OverflowIsZero` say for exactly which arguments its result and its 0 on overflow are right.
- `afl_realloc` is documented to free the buffer for a size below 1
  (`include/alloc-inl.h:656-662`); it serves 0 as any other size: the `ok <==>` clause of
  `GrowthAlloc.Pointer.Realloc` with `sizeNeeded == 0`, and `GrowthAlloc.ZeroIsServed`.
- With contexts on, the pass collects the blocks to instrument in the counting pass alone, which
  runs only for functions with more than one caller
  (`instrumentation/SanitizerCoverageLTO.so.cc:1672`, `2121-2123`); other functions get no block
  ids. `LtoIds.AllBlocksNumbered` says when all blocks are numbered, `LtoIds.SingleCallerLosesBlocks`
  shows one that is not.
- Each lane of a vector select is inserted into a new vector instead of the one built so far
  (`instrumentation/SanitizerCoverageLTO.so.cc:2009-2029`), so only the last lane's ids reach the select,
  and lanes after the first leave the context out. `LtoIds.LanesArrive` says exactly when nothing is
  lost; `LtoIds.IdsDoNotCollide` speaks of the ids that are allocated.
- The counting and the emitting pass disagree without TracePCGuard: `LtoIds.PassesCanDisagree`.

## Model

| member | source | states |
|---|---|---|
| Xxh3History.Run | AFLplusplus-dev/include/xxhash.h:6933-7247 | Any legal history of resets (also failing ones and ones served from the seed cache), updates and digests on one state returns, digest by digest, the one-shot hashes of the bytes fed since the last reset that stands |
| Xxh3History.CutsDoNotMatter | AFLplusplus-dev/include/xxhash.h:7084-7181 | However an input is cut into updates, the 64-bit digest is the one-shot hash of the whole |
| Xxh3History.Apply | AFLplusplus-dev/include/xxhash.h:6962-7247 | One call on a valid state follows the abstract session: keying of the last reset and bytes fed, and nothing else |
| Xxh3State.Xxh3State.Update | AFLplusplus-dev/include/xxhash.h:7084-7172 | The state keeps its invariant: the lanes hold the stripes consumed, the buffer the rest and above it the kept tail; the bytes fed grow by the input |
| Xxh3State.Xxh3State.ConsumeBuffer | AFLplusplus-dev/include/xxhash.h:7133-7143 | Completing the buffer and consuming its four stripes leaves the lanes after exactly those stripes |
| Xxh3State.Xxh3State.ConsumeBulk | AFLplusplus-dev/include/xxhash.h:7145-7155 | Bulk consumption leaves at least one byte unconsumed and the last 64 consumed bytes at the top of the buffer |
| Xxh3State.DigestStripeIsInputTail | AFLplusplus-dev/include/xxhash.h:7196-7217 | The last stripe, even when put together from the buffer and the kept tail, is the last 64 bytes fed |
| Xxh3State.Xxh3State.DigestLong | AFLplusplus-dev/include/xxhash.h:7184-7224 | Digesting a long stream gives the lanes of the one-shot block loop and leaves the state alone |
| Xxh3State.Xxh3State.Digest64 | AFLplusplus-dev/include/xxhash.h:7227-7247 | The 64-bit digest is the one-shot hash of everything fed, for total lengths below 2^64 |
| Xxh3State.Xxh3State.Digest128 | AFLplusplus-dev/include/xxhash.h:7829-7862 | The 128-bit digest in every case, also where line 7856 tests the seed instead of useSeed |
| Xxh3History.Digest128Exactly | AFLplusplus-dev/include/xxhash.h:7855-7860 | The 128-bit digest is the one-shot hash for all mixers if and only if it is not a short input after a reset with secret and seed 0 |
| Xxh3History.EmptyDigestExactly | AFLplusplus-dev/include/xxhash.h:7438-7450 | With the library's default secret and its hash of the empty input, the mismatch for the empty input shows exactly when the external secret gives other keys than the default one |
| Xxh3History.SeedZeroDigestDiffers | AFLplusplus-dev/include/xxhash.h:7809-7861 | A concrete case of the mismatch, with the library's own hash of the empty input: an all-zero external secret, seed 0, nothing fed |
| Xxh3History.StreamedIsInPlace | AFLplusplus-dev/include/xxhash.h:6533-6578 | Streaming in any cuts and the block loop in place, with the scalar step or any share of vector lanes, give the same hash |
| XxhAvalanche.AvalancheInjective | AFLplusplus-dev/include/xxhash.h:3736-3745 | XXH64_avalanche maps different words to different words |
| XxhAvalanche.XorShiftInjective | AFLplusplus-dev/include/xxhash.h:3738-3742 | Xoring a word with its own shift loses nothing |
| Xxh3State.Xxh3State.ResetWithSeed | AFLplusplus-dev/include/xxhash.h:6984-6995 | The secret cached for a seed is recomputed whenever it might be stale, so that the state is keyed by the seed given |
| Xxh3State.Xxh3State.ResetWithSecret | AFLplusplus-dev/include/xxhash.h:6971-6981 | Error cases; on success the state is keyed by the secret, after a failure it has no keying |
| Xxh3State.Xxh3State.ResetWithSecretAndSeed | AFLplusplus-dev/include/xxhash.h:6997-7009 | Error cases leave the state untouched; on success the seed keys short inputs and the secret long ones |
| Xxh3State.Xxh3State.ResetInternal | AFLplusplus-dev/include/xxhash.h:6933-6959 | Every field that streaming depends on is set; the seed cache invariant survives |
| Xxh3State.SeedZeroIsDefault | AFLplusplus-dev/include/xxhash.h:6403-6470 | Seed 0 derives the default secret, so the shortcut for seed 0 changes nothing |
| Xxh3State.CustomWord | AFLplusplus-dev/include/xxhash.h:6403-6470 | Word by word, the derived secret is the default one plus the seed in even words and minus it in odd ones, modulo 2^64 |
| Xxh3State.InitCustomSecretInPlace | AFLplusplus-dev/include/xxhash.h:6403-6470 | The in-place derivation of a secret from a seed, segment by segment |
| Xxh3State.OneShot64 | AFLplusplus-dev/include/xxhash.h:6739-6805 | The one-shot 64-bit hash under each keying |
| Xxh3State.OneShot128 | AFLplusplus-dev/include/xxhash.h:7700-7774 | The one-shot 128-bit hash under each keying |
| Xxh3State.LongHash | AFLplusplus-dev/include/xxhash.h:6624-6655 | Both hashes of more than 240 bytes in terms of input and secret bytes: the merge keys from byte 11 on and up to 11 bytes before the end, and the two multiples of the length |
| Xxh3State.ShortHash | AFLplusplus-dev/include/xxhash.h:6739-6805 | Which secret and which seed an input of at most 240 bytes is mixed with under each keying |
| Xxh3Stripes.ConsumeStripes | AFLplusplus-dev/include/xxhash.h:7029-7072 | Resumed at any position of a block, it absorbs the stripes one by one with a scramble at the end of each block, and returns the new position |
| Xxh3Stripes.HashLongInternalLoop | AFLplusplus-dev/include/xxhash.h:6533-6578 | The one-shot block loop absorbs the same stripes and then the last one |
| Xxh3Stripes.Accumulate | AFLplusplus-dev/include/xxhash.h:5346-5361 | The loop over the stripes of a block |
| Xxh3Stripes.AbsorbAppend | AFLplusplus-dev/include/xxhash.h:7029-7072 | Absorbing in two goes at the block position reached is absorbing once |
| Xxh3Stripes.AbsorbTraced | AFLplusplus-dev/include/xxhash.h:5346-5361 | Absorbing in bytes: stripe i is keyed with the 64 secret bytes from 8 times its place in the block on, and a scramble with the last 64 secret bytes ends each block, for all mixing functions |
| Xxh3Stripes.TraceOf | AFLplusplus-dev/include/xxhash.h:5346-5361 | For every input there are lanes that go by this rule |
| Xxh3Stripes.LongTraced | AFLplusplus-dev/include/xxhash.h:6533-6578 | A long input starts from the eight given constants and ends with its last 64 bytes, keyed with the secret bytes that end 7 bytes before its end |
| Xxh3Stripes.LastBytes | AFLplusplus-dev/include/xxhash.h:7029-7072 | For mixing functions that show nothing but what they are given last: which 64 input bytes and which 64 secret bytes these are |
| Xxh3Stripes.AbsorbPrefix | AFLplusplus-dev/include/xxhash.h:7029-7072 | Absorbing depends on the bytes of its stripes alone |
| Xxh3Stripes.BlocksFit | AFLplusplus-dev/include/xxhash.h:6540-6562 | The stripes of whole blocks and of the partial one add up to all but the last |
| Xxh3Lanes.OrderIrrelevant | AFLplusplus-dev/include/xxhash.h:6307-6351 | The scalar rounds of distinct lanes give the same lanes in every order |
| Xxh3Lanes.AccumulatedLane | AFLplusplus-dev/include/xxhash.h:6307-6329 | Each lane gains its neighbour's word and the product of the halves of its own keyed word, modulo 2^64 |
| Xxh3Lanes.LaneSum | AFLplusplus-dev/include/xxhash.h:6307-6329 | Inside a block each lane is its start plus, for each stripe, the word beside its own and the product of the halves of its own word keyed with the right secret word |
| Xxh3Lanes.AccumulateScalar | AFLplusplus-dev/include/xxhash.h:6333-6352 | The scalar loop computes those lanes in place |
| Xxh3Lanes.AccumulateVector | AFLplusplus-dev/include/xxhash.h:5834-5968 | Scalar lanes first and then two lanes at a time, for any split: the same lanes; with no scalar lanes this is the SSE2 and AVX2 step of lines 5540-5573 |
| Xxh3Lanes.VectorIsTwoRounds | AFLplusplus-dev/include/xxhash.h:5540-5580 | One vector of two lanes, with words and products summed first, is two scalar rounds |
| Xxh3Lanes.SplitProduct | AFLplusplus-dev/include/xxhash.h:5600-5612 | The product by the 32-bit prime put together from the halves is the full product modulo 2^64, whether the high part is cut before or after it is shifted |
| Xxh3Lanes.ScrambleScalar | AFLplusplus-dev/include/xxhash.h:6365-6401 | The scalar scramble, in place |
| Xxh3Lanes.ScrambledBits | AFLplusplus-dev/include/xxhash.h:6365-6383 | Bit by bit, the scrambled word is flipped by its own bits 47 places up and by its key, then multiplied by the prime |
| Xxh3Lanes.ScrambleVector | AFLplusplus-dev/include/xxhash.h:5976-6042 | Both vector scrambles compute the scalar scramble |
| Xxh3Lanes.AccumulateStripes | AFLplusplus-dev/include/xxhash.h:5346-5361 | In place, for any number of stripes and any share of vector lanes, the lanes are those of the kernel made of the lane steps |
| Xxh3Lanes.HashLongInPlace | AFLplusplus-dev/include/xxhash.h:6533-6578 | The block loop in place gives the same lanes for every back end |
| Xxh32.Xxh32State.Update | AFLplusplus-dev/include/xxhash.h:3407-3484 | For every split the lanes hold the whole stripes fed and the buffer the rest; memsize is the total modulo 16 |
| Xxh32.CountersFollow | AFLplusplus-dev/include/xxhash.h:3422-3424 | The sticky large_len flag says whether the true total is at least 16 although the 32-bit counter wraps |
| Xxh32.SeedKept | AFLplusplus-dev/include/xxhash.h:3491-3500 | The third lane is still the seed until a stripe was consumed |
| Xxh32.Xxh32State.Digest | AFLplusplus-dev/include/xxhash.h:3487-3507 | The digest is the one-shot hash, for any total length |
| Xxh32.Xxh32State.Reset | AFLplusplus-dev/include/xxhash.h:3393-3404 | A reset state has been fed nothing |
| Xxh32.OneShot | AFLplusplus-dev/include/xxhash.h:3295-3338 | The one-shot hash |
| Xxh32.HashInWords | AFLplusplus-dev/include/xxhash.h:3295-3338 | The whole hash as folds over words: four lanes from four seeds, each over every fourth word, then the length, the remaining words and the remaining bytes |
| Xxh32.FinalizeRolled | AFLplusplus-dev/include/xxhash.h:3170-3210 | The compact tail loop |
| Xxh32.FinalizeJump | AFLplusplus-dev/include/xxhash.h:3212-3275 | The jump table gives the same tail |
| Xxh64.Xxh64State.Update | AFLplusplus-dev/include/xxhash.h:3934-4001 | For every split the lanes hold the whole stripes fed and the buffer the rest; memsize is the total modulo 32 |
| Xxh64.Xxh64State.Digest | AFLplusplus-dev/include/xxhash.h:4005-4029 | The digest is the one-shot hash for totals below 2^64 |
| Xxh64.Xxh64State.Reset | AFLplusplus-dev/include/xxhash.h:3920-3931 | A reset state has been fed nothing |
| Xxh64.OneShot | AFLplusplus-dev/include/xxhash.h:3818-3864 | The one-shot hash |
| Xxh64.HashInWords | AFLplusplus-dev/include/xxhash.h:3818-3864 | The whole hash as folds over words: four lanes from four seeds, each over every fourth word, then the length, the remaining words of eight and four bytes and the remaining bytes |
| Xxh64.Finalize | AFLplusplus-dev/include/xxhash.h:3764-3798 | The tail is mixed 8, 4 and 1 bytes at a time |
| CminMinimise.Minimise | AFLplusplus-dev/afl-cmin.py:667-794 | For every assignment of batches to workers, every interleaving, every order of messages and every most-common-first listing of the merged counter: the saved files have exactly the coverage of all files, none is saved twice, each adds coverage; the files that alone hold a tuple come first, and each later one is the smallest file for a rarest tuple that no earlier file has |
| CminMinimise.CountedIsCovered | AFLplusplus-dev/afl-cmin.py:698-722 | The merged counter has a tuple exactly when some file covers it, with its true count |
| CminMinimise.MostCommonIsListed | AFLplusplus-dev/afl-cmin.py:722 | So listing the merged counter lists every tuple of the corpus once, with its true count, the most common first |
| CminSelect.MergeCounters | AFLplusplus-dev/afl-cmin.py:698-702 | Updating one counter with all results adds up their counts |
| CminReach.RunInv | AFLplusplus-dev/afl-cmin.py:465-525 | The protocol invariant holds in every reachable state |
| CminReach.StepInv | AFLplusplus-dev/afl-cmin.py:465-525 | Each step of dispatcher, worker or main keeps the protocol invariant |
| CminReach.FinalCounts | AFLplusplus-dev/afl-cmin.py:687-704 | When main has its results, it has drained the progress and result queues, all batches were taken and all workers are gone |
| CminReach.NotStuck | AFLplusplus-dev/afl-cmin.py:465-525 | Until main has all results some process can step: no deadlock |
| CminReach.RunsEnd | AFLplusplus-dev/afl-cmin.py:667-704 | Every run is at most as long as jobs and files allow, and a complete one is exactly that long |
| CminProtocol.MakeJobs | AFLplusplus-dev/afl-cmin.py:677-679 | The job list: batches of an even share of the files rounded down, but at least 1 and at most 128, and one sentinel per worker |
| CminProtocol.JobsCoverOnce | AFLplusplus-dev/afl-cmin.py:677-679 | Every file is in exactly one batch |
| CminProtocol.BatchSizes | AFLplusplus-dev/afl-cmin.py:677-679 | All batches hold that many files, but for the last, which holds the rest |
| CminSelect.EveryFileHandled | AFLplusplus-dev/afl-cmin.py:492-523 | In a final state each file was handled by some worker |
| CminSelect.MergeBest | AFLplusplus-dev/afl-cmin.py:705 | The element-wise minimum over the workers' arrays |
| CminSelect.MergedIsBest | AFLplusplus-dev/afl-cmin.py:511-515 | The merged entry is the smallest index of a file with the tuple, whatever the schedule |
| CminSelect.BestUnique | AFLplusplus-dev/afl-cmin.py:705 | So the merge does not depend on the schedule |
| CminSelect.BestIsAnnounced | AFLplusplus-dev/afl-cmin.py:517-521 | The smallest index of a tuple was always announced with its pack position, so trace_info is defined where main reads it |
| CminSelect.MergedCounts | AFLplusplus-dev/afl-cmin.py:698-702 | The merged counter counts each tuple over all files |
| CminSelect.MergeOrderIrrelevant | AFLplusplus-dev/afl-cmin.py:699-702 | The order in which results arrive does not change the counts |
| CminMinimise.SoleHolder | AFLplusplus-dev/afl-cmin.py:748-751 | A tuple counted once is in exactly one file, the best one |
| CminMinimise.SelectUnique | AFLplusplus-dev/afl-cmin.py:746-760 | The first phase saves, once each, exactly the files that hold a tuple counted once, whatever the schedule, and queues their pack positions |
| CminMinimise.CombineTraces | AFLplusplus-dev/afl-cmin.py:536-544 | A combining worker returns exactly the tuples of the traces it was sent |
| CminMinimise.CombineAll | AFLplusplus-dev/afl-cmin.py:769-775 | The combined set is the coverage of the files saved so far |
| CminMinimise.SelectRest | AFLplusplus-dev/afl-cmin.py:777-791 | The second phase takes the smallest file for a rarest tuple still missing, each adding coverage, until all is covered |
| CminWorker.Worker.HandleFile | AFLplusplus-dev/afl-cmin.py:497-523 | One file: counter, smallest indexes, pack file and announcement |
| CminWorker.HandleAllFaithful | AFLplusplus-dev/afl-cmin.py:481-525 | Over any list of files the local results are the true minima, counts and crashes, and each announced position holds the trace of its file |
| CminWorker.DecodeEncode | AFLplusplus-dev/afl-cmin.py:519 | What array.tofile wrote array.fromfile reads back |
| CminWorker.ReadBack | AFLplusplus-dev/afl-cmin.py:785-789 | Seeking to an announced position and reading its count gives the trace that was written |
| CminWorker.DetectTypeCode | AFLplusplus-dev/afl-cmin.py:289-292 | The first item type with more values than asked for, or none |
| Havoc.Mutator.Mutate | AFLplusplus-dev/include/afl-mutations.h:1801-2731 | For every tape of draws and step count the run is a valid script of exactly one entry per step; requests and edits are the ones that the answers stand for under HavocDraws.RunBy, the answers come from the tape, and between 1 and max_len bytes are left; length 0 returns 0 |
| Havoc.Mutator.Step | AFLplusplus-dev/include/afl-mutations.h:1863-2725 | A step draws mutations from the table, each asking for what it needs, until one does not retry, and makes the edit that the answers to that one stand for |
| HavocDraws.LongInputsAreEdited | AFLplusplus-dev/include/afl-mutations.h:1863-2725 | An input of 8 bytes or more is never left as it is: the step makes an edit |
| HavocEffects.Effects | AFLplusplus-dev/include/afl-mutations.h:1801-2731 | What each edit does, byte by byte: which bytes stay, and which bits, sums modulo 256, 2^16 or 2^32 in either byte order, copies or cycles the others become |
| HavocEffects.NumAdded | AFLplusplus-dev/include/afl-mutations.h:1944-1962 | Adding to a byte adds the numbers modulo 256 |
| HavocEffects.XoredNum | AFLplusplus-dev/include/afl-mutations.h:2076-2087 | The exclusive or flips exactly the set bits |
| HavocEffects.StoredWord16 | AFLplusplus-dev/include/afl-mutations.h:1892-1916 | A value swapped for the other byte order and stored is that value read in that order |
| HavocEffects.StoredWord32 | AFLplusplus-dev/include/afl-mutations.h:1918-1942 | The same for four bytes |
| Havoc.Mutator.Dispatch | AFLplusplus-dev/include/afl-mutations.h:1869-2727 | The switch: retry, nothing or the one edit that each mutation makes of its input given the answers it draws, all accesses in range |
| Havoc.Mutator.DispatchByte | AFLplusplus-dev/include/afl-mutations.h:1871-2087 | The cases that change one byte |
| Havoc.Mutator.DispatchWord | AFLplusplus-dev/include/afl-mutations.h:1871-2087 | The cases that change two or four bytes; they do nothing exactly on inputs too short |
| Havoc.Mutator.DispatchBlock | AFLplusplus-dev/include/afl-mutations.h:2089-2593 | The cases that move, copy, fill, delete or insert blocks of the input or rewrite numbers in it |
| Havoc.Mutator.DispatchElsewhere | AFLplusplus-dev/include/afl-mutations.h:2595-2725 | The cases that take bytes from a dictionary or from another input |
| Havoc.Mutator.FlipBitCase | AFLplusplus-dev/include/afl-mutations.h:1871-1880 | The bit drawn of the byte drawn is flipped |
| Havoc.Mutator.Interesting8Case | AFLplusplus-dev/include/afl-mutations.h:1882-1890 | The byte drawn becomes the table value drawn |
| Havoc.Mutator.Interesting16Case | AFLplusplus-dev/include/afl-mutations.h:1892-1916 | Two bytes at the place drawn become the table value drawn, in the given byte order; shorter inputs stay |
| Havoc.Mutator.Interesting32Case | AFLplusplus-dev/include/afl-mutations.h:1918-1942 | Four bytes at the place drawn become the table value drawn, in the given byte order; shorter inputs stay |
| Havoc.Mutator.Arith8Case | AFLplusplus-dev/include/afl-mutations.h:1944-1962 | The amount drawn, 1 to 35, is added to or taken from the number of the byte drawn, modulo 256 |
| Havoc.Mutator.AddByteCase | AFLplusplus-dev/include/afl-mutations.h:2206-2222 | BYTEADD and BYTESUB: the number of the byte drawn goes up or down by one, modulo 256 |
| Havoc.Mutator.Add16Case | AFLplusplus-dev/include/afl-mutations.h:1964-2018 | The amount drawn, 1 to 35, is added to or taken from two bytes at the place drawn, in the given byte order |
| Havoc.Mutator.Add32Case | AFLplusplus-dev/include/afl-mutations.h:2020-2074 | The amount drawn, 1 to 35, is added to or taken from four bytes at the place drawn, in the byte order the code really uses |
| Havoc.Mutator.Rand8Case | AFLplusplus-dev/include/afl-mutations.h:2076-2087 | The byte drawn is xored with the value drawn, which is never zero |
| Havoc.Mutator.OverwriteCopyCase | AFLplusplus-dev/include/afl-mutations.h:2169-2187 | A block of the length drawn is copied between the places drawn, as if by way of a copy |
| Havoc.Mutator.OverwriteFixedCase | AFLplusplus-dev/include/afl-mutations.h:2189-2204 | A block of the length and place drawn is filled with one byte, random or the one in front of it |
| Havoc.Mutator.ShuffleCase | AFLplusplus-dev/include/afl-mutations.h:2295-2321 | The block drawn is shuffled by the partners drawn, each smaller than its position |
| Havoc.Mutator.ChooseBlockLen | AFLplusplus-dev/include/afl-mutations.h:1760-1799 | The length in the class drawn: between 1 and the smaller of limit and HAVOC_BLK_XL; 1 for limit 0 |
| Havoc.Mutator.SwitchCase | AFLplusplus-dev/include/afl-mutations.h:2233-2275 | Blocks at the two places drawn, the second drawn until it differs, never overlap, so they are exchanged |
| Havoc.Mutator.DeleteCase | AFLplusplus-dev/include/afl-mutations.h:2277-2293 | A nonempty block of the length and place drawn goes and at least one byte stays |
| Havoc.Mutator.DeleteOneCase | AFLplusplus-dev/include/afl-mutations.h:2323-2340 | The byte drawn goes, if another stays |
| Havoc.Mutator.CloneCopyCase | AFLplusplus-dev/include/afl-mutations.h:2089-2126 | The block drawn is inserted at the place drawn, in front of the last byte or earlier, exactly when there is room for the largest block; otherwise inputs of 8 bytes or more ask for another mutation |
| Havoc.Mutator.CloneFixedCase | AFLplusplus-dev/include/afl-mutations.h:2128-2167 | Under the same condition a block of the length drawn and of one byte, random or the one in front, is inserted |
| Havoc.Mutator.InsertOneCase | AFLplusplus-dev/include/afl-mutations.h:2342-2369 | One byte, random or the one in front, is inserted at the place drawn, with a retry exactly when an input of two bytes or more is full |
| Havoc.Mutator.AsciiNumCase | AFLplusplus-dev/include/afl-mutations.h:2371-2550 | The digits of the number found from the place drawn on are replaced by the printed result of the strategy drawn; every retry and every input left alone is accounted for |
| Havoc.Mutator.InsertAsciiNumCase | AFLplusplus-dev/include/afl-mutations.h:2552-2593 | The last digits of the number drawn, as many as drawn, overwrite the input at the place drawn exactly when they fit there; where they do not, inputs of 8 bytes or more ask for another mutation |
| Havoc.Mutator.ExtraOverwriteCase | AFLplusplus-dev/include/afl-mutations.h:2595-2651 | The dictionary entry drawn overwrites the input at the place drawn; a retry is due to an empty dictionary or an entry that is too long |
| Havoc.Mutator.ExtraInsertCase | AFLplusplus-dev/include/afl-mutations.h:2613-2673 | The dictionary entry drawn is inserted at the place drawn, the tail moved up in place |
| Havoc.Mutator.SpliceOverwriteCase | AFLplusplus-dev/include/afl-mutations.h:2675-2693 | The block drawn of the other input overwrites at the place drawn, also when that input has one byte |
| Havoc.Mutator.SpliceInsertCase | AFLplusplus-dev/include/afl-mutations.h:2695-2725 | The block drawn of the other input is inserted at the place drawn |
| HavocEdits.LengthKept | AFLplusplus-dev/include/afl-mutations.h:1801-2731 | Every valid edit keeps 1 <= len <= max_len |
| HavocEdits.FlipTwice | AFLplusplus-dev/include/afl-mutations.h:1871-1880 | Flipping the same bits twice restores the input |
| HavocEdits.ArithCancels | AFLplusplus-dev/include/afl-mutations.h:1964-2060 | Adding and subtracting the same amount with the same byte order cancel |
| HavocEdits.Arith32BEIsLittleEndian | AFLplusplus-dev/include/afl-mutations.h:2062-2074 | MUT_ARITH32BE as written adds in little-endian order |
| HavocEdits.OrdersAgree | AFLplusplus-dev/include/afl-mutations.h:2034-2074 | Adding 1 to 255 in little-endian and in big-endian order agree only for FF FF FF FF and 1 |
| HavocEdits.Arith32BEUndoneExactly | AFLplusplus-dev/include/afl-mutations.h:2034-2074 | MUT_ARITH32BE_ undoes MUT_ARITH32BE if and only if the word was FF FF FF FF and the amount 1 |
| HavocEdits.Arith32BENotInverse | AFLplusplus-dev/include/afl-mutations.h:2034-2074 | One input for which it does not; HavocEdits.Arith32BEUndoneExactly gives the exact condition |
| HavocEdits.SwapTwice | AFLplusplus-dev/include/afl-mutations.h:2259-2271 | Switching the same blocks twice restores the input |
| HavocEdits.InsertDelete | AFLplusplus-dev/include/afl-mutations.h:2277-2293 | Deleting what was inserted restores the input |
| Sattolo.Shuffle | AFLplusplus-dev/include/afl-mutations.h:2295-2321 | The loop asks for a partner of each position until it differs, computes the shuffle of the block by these partners, and leaves the rest alone |
| Sattolo.ShuffledIsCycle | AFLplusplus-dev/include/afl-mutations.h:2303-2317 | The block is rearranged by one cycle through all its positions |
| Sattolo.CycleMovesAll | AFLplusplus-dev/include/afl-mutations.h:2303-2317 | In a block of at least two bytes no position keeps its own byte |
| Sattolo.ShuffledMultiset | AFLplusplus-dev/include/afl-mutations.h:2313-2315 | No bytes are gained or lost |
| Sattolo.ChoicesDetermined | AFLplusplus-dev/include/afl-mutations.h:2305-2311 | Different partners give different rearrangements |
| Sattolo.EveryCycleArises | AFLplusplus-dev/include/afl-mutations.h:2305-2311 | Every rearrangement by a single cycle comes from some choice of partners |
| AsciiNum.FindNumber | AFLplusplus-dev/include/afl-mutations.h:2375-2418 | The first digit in cyclic order from the start, with its whole run of digits, or none at all |
| AsciiNum.ReadNumber | AFLplusplus-dev/include/afl-mutations.h:2420-2438 | The value of the longest part of the run that fits in 64 signed bits |
| AsciiNum.Change | AFLplusplus-dev/include/afl-mutations.h:2440-2512 | What each strategy makes of the value with the answers it draws; the trimmed value, the product taken before a random remainder and the result all stay in 64 signed bits |
| AsciiNum.TowardZero | AFLplusplus-dev/include/afl-mutations.h:2444-2475 | The division of C: the remainder is smaller than the divisor and has the sign of the dividend |
| AsciiNum.DropsExactly | AFLplusplus-dev/include/afl-mutations.h:2442-2506 | A digit is given up exactly where the strategy could leave 64 signed bits, amounts up to 256 being allowed for |
| AsciiNum.SpanSurvives | AFLplusplus-dev/include/afl-mutations.h:2444-2503 | Giving up the last digit never empties the span |
| AsciiNum.TextRoundTrips | AFLplusplus-dev/include/afl-mutations.h:2514-2517 | The printed text reads back as the value exactly from -999999 to 9999999: snprintf is given the size of a pointer |
| RandBelow.Uniform | AFLplusplus-dev/include/afl-fuzz.h:1379-1389 | Every result of rand_below has the same number of accepted 64-bit draws |
| RandBelow.FewRejected | AFLplusplus-dev/include/afl-fuzz.h:1379-1389 | Fewer draws than the limit are rejected, and the accepted ones come in whole rounds |
| RandBelow.Rng.Below | AFLplusplus-dev/include/afl-fuzz.h:1364-1391 | The request and its answer are recorded; the answer is the remainder of the first accepted draw of the tape and below the limit |
| RandBelow.ReplaysUnique | AFLplusplus-dev/include/afl-fuzz.h:1364-1391 | The tape alone decides: the same requests have the same answers |
| RandBelow.Rng.BelowDatalen | AFLplusplus-dev/include/afl-fuzz.h:1396-1417 | One of the three nested remainders of the answers, as the first answer says, with the requests it makes in order: below the limit and never above the second answer |
| PreallocList.Run | AFLplusplus-dev/include/list.h:70-180 | Over any run of operations a fresh list answers as the sequence of its items does, and stops with a fatal error exactly where that is asked for something it does not hold |
| PreallocList.List.Append | AFLplusplus-dev/include/list.h:70-94 | The item goes to the end; its element was not in use before |
| PreallocList.List.Remove | AFLplusplus-dev/include/list.h:147-166 | The first match goes, or the call is fatal and changes nothing |
| PreallocList.List.Contains | AFLplusplus-dev/include/list.h:170-180 | Membership |
| PreallocList.List.ForeachRemove | AFLplusplus-dev/include/list.h:102-144 | Every element is visited once, in order, although the visited ones are freed on the way |
| PreallocList.KeptNone | AFLplusplus-dev/include/list.h:134-144 | Removing every visited element clears the list |
| PreallocList.List.TakeOut | AFLplusplus-dev/include/list.h:123-130 | Unlinking one element keeps the ring of the others |
| PreallocList.LinkLast | AFLplusplus-dev/include/list.h:89-92 | Linking in front of the head keeps the ring |
| PreallocList.List.PreAlloc | AFLplusplus-dev/include/afl-prealloc.h:58-88 | Below 64 used slots the scan finds an unused one, so no element in use is handed out; otherwise malloc |
| PreallocList.List.PreFree | AFLplusplus-dev/include/afl-prealloc.h:107-140 | Neither fatal error can happen; the slot counter follows |
| PreallocList.List.CounterIsUsedSlots | AFLplusplus-dev/include/afl-prealloc.h:76-77 | The counter is the number of used slots, the head among them |
| Coverage64.DiscoverMap | AFLplusplus-dev/include/coverage-64.h:81-113 | Word by word, the result and the virgin map are those of the per-byte definition |
| Coverage64.DiscoverWordRefines | AFLplusplus-dev/include/coverage-64.h:83-113 | One word: the verdict on its bytes and the cleared bytes |
| Coverage64.DiscoverAll | AFLplusplus-dev/include/coverage-64.h:81-113 | Folding any list of traces from an all-ones map gives the verdict of each on the history before it |
| CoverageBytes.VirginIsHistory | AFLplusplus-dev/include/coverage-64.h:109 | The virgin map is the complement of the or of all traces |
| CoverageBytes.VerdictMeaning | AFLplusplus-dev/include/coverage-64.h:89-107 | 2 exactly for a byte no earlier trace hit, 0 exactly when nothing is new |
| CoverageBytes.ReplayIsOld | AFLplusplus-dev/include/coverage-64.h:89-109 | Replaying a trace gives 0 |
| CoverageBytes.VerdictAppend | AFLplusplus-dev/include/coverage-64.h:83-113 | The verdict on a map is the worst over its parts |
| Coverage64.Skim | AFLplusplus-dev/include/coverage-64.h:184-197 | Whether some word has classified bits that are still virgin |
| Coverage64.SkimIsDiscover | AFLplusplus-dev/include/coverage-64.h:182-197 | skim answers exactly whether classifying and discovering would find anything |
| Coverage64.ClassifyCounts | AFLplusplus-dev/include/coverage-64.h:64-79 | Skipping zero words is classifying all words |
| Coverage64.ClassifyBytes | AFLplusplus-dev/include/coverage-64.h:17-30 | Classifying words is the 16-bit table on every aligned byte pair |
| Coverage64.SimplifyTrace | AFLplusplus-dev/include/coverage-64.h:32-62 | The constant stored for a zero word is what the table gives |
| Coverage32.DiscoverMap | AFLplusplus-dev/include/coverage-32.h:73-101 | The same with 32-bit words |
| Coverage32.DiscoverAll | AFLplusplus-dev/include/coverage-32.h:73-101 | The same fold with 32-bit words |
| Coverage32.SkimIsDiscover | AFLplusplus-dev/include/coverage-32.h:103-117 | The same filter with 32-bit words |
| Coverage32.ClassifyCounts | AFLplusplus-dev/include/coverage-32.h:54-69 | Skipping zero words is classifying all words |
| Coverage32.ClassifyBytes | AFLplusplus-dev/include/coverage-32.h:13-24 | The 16-bit table on every aligned byte pair |
| Coverage32.SimplifyTrace | AFLplusplus-dev/include/coverage-32.h:26-52 | The constant stored for a zero word is what the table gives |
| CoverageWidths.DiscoverBoth | AFLplusplus-dev/include/coverage-32.h:71-101 | Both word widths give the same verdicts and the same virgin bytes for the same traces |
| CoverageWidths.ClassifyAgrees | AFLplusplus-dev/include/coverage-32.h:13-24 | Both word widths classify the same bytes to the same bytes |
| CoverageWidths.SkimAgrees | AFLplusplus-dev/include/coverage-32.h:103-117 | Both word widths filter alike |
| LtoPruning.CoverageDetermined | AFLplusplus-dev/instrumentation/SanitizerCoverageLTO.so.cc:1442-1474 | Without critical edges, two complete runs that execute the same instrumented blocks execute the same blocks |
| LtoPruning.InstrumentedExactly | AFLplusplus-dev/instrumentation/SanitizerCoverageLTO.so.cc:1442-1474 | Which blocks are instrumented, in terms of runs: the only block of a function, or one that is no full dominator and either has one predecessor or is missed by some run after a predecessor |
| LtoPruning.InnerJoinSkipped | AFLplusplus-dev/instrumentation/SanitizerCoverageLTO.so.cc:1471-1472 | The join of a nested if is skipped although no run ends there |
| LtoPruning.EssentialBlocksSuffice | AFLplusplus-dev/instrumentation/SanitizerCoverageLTO.so.cc:1442-1474 | Under those conditions the blocks with one predecessor that are no full dominators are enough, whatever post-dominance skips |
| LtoPruning.EdgesDetermined | AFLplusplus-dev/instrumentation/SanitizerCoverageLTO.so.cc:1442-1474 | Under the same conditions the two runs also take the same edges |
| LtoPruning.CriticalEdgesLoseCoverage | AFLplusplus-dev/instrumentation/SanitizerCoverageLTO.so.cc:1597-1600 | With critical edges left in this fails: a graph, all of it reachable, and two runs |
| LtoPruning.FullDominatorSeen | AFLplusplus-dev/instrumentation/SanitizerCoverageLTO.so.cc:1411-1424 | A full dominator runs exactly when one of its successors does |
| LtoPruning.DominatesExactly | AFLplusplus-dev/instrumentation/SanitizerCoverageLTO.so.cc:1411-1424 | Dominance by cuts: a dominates b exactly when it is the only way out of some set of blocks around the entry |
| LtoPruning.FullDominatorExactly | AFLplusplus-dev/instrumentation/SanitizerCoverageLTO.so.cc:1411-1424 | A full dominator has successors and is such a cut in front of each of them |
| LtoPruning.FullPostDominatorSeen | AFLplusplus-dev/instrumentation/SanitizerCoverageLTO.so.cc:1426-1440 | A full post-dominator runs exactly when one of its predecessors does |
| LtoPruning.FullPostDominatorExactly | AFLplusplus-dev/instrumentation/SanitizerCoverageLTO.so.cc:1426-1440 | A full post-dominator is a block with predecessors that every complete run executes after each of them |
| LtoPruning.DominatorDescends | AFLplusplus-dev/instrumentation/SanitizerCoverageLTO.so.cc:1411-1424 | From an executed full dominator the last executed successors lead down the dominator tree to an executed block that this rule does not skip |
| LtoPruning.FullDominatorSpreads | AFLplusplus-dev/instrumentation/SanitizerCoverageLTO.so.cc:1469-1472 | A block with several predecessors right after a full dominator is a full dominator |
| LtoIds.IdsDoNotCollide | AFLplusplus-dev/instrumentation/SanitizerCoverageLTO.so.cc:2146-2165 | Two allocated ids, each in one of its contexts, stand for the same map entry exactly when they are the same id in the same context, except that those of the later lanes of a vector select stand for one entry in all contexts |
| LtoIds.IdsFitTheMap | AFLplusplus-dev/instrumentation/SanitizerCoverageLTO.so.cc:1261-1263 | Every entry is above the reserved ids and below the final map size, a multiple of 8 |
| LtoIds.Pass.InstrumentModule | AFLplusplus-dev/instrumentation/SanitizerCoverageLTO.so.cc:1213-1214 | The regions of the functions follow each other; the pass stops exactly for a function whose two passes disagree |
| LtoIds.Pass.InstrumentFunction | AFLplusplus-dev/instrumentation/SanitizerCoverageLTO.so.cc:1605-2165 | The counting and the emitting pass agree if and only if blocks are numbered by TracePCGuard or there are none; contexts multiply the range |
| LtoIds.EntriesTaken | AFLplusplus-dev/instrumentation/SanitizerCoverageLTO.so.cc:1740-1760 | The ids of a function are taken once for every caller exactly when contexts are on and it has several callers and more than one id; a single id takes one map entry |
| LtoIds.Pass.EmitCode | AFLplusplus-dev/instrumentation/SanitizerCoverageLTO.so.cc:1870-2117 | Each original instruction is numbered once although every select is followed by an added one that the walk also meets |
| LtoIds.CodeIdAt | AFLplusplus-dev/instrumentation/SanitizerCoverageLTO.so.cc:1868-2117 | The ids of each instruction follow those of the instructions before it, and only the first two take the context offset |
| LtoIds.Pass.EmitFunction | AFLplusplus-dev/instrumentation/SanitizerCoverageLTO.so.cc:1868-2139 | The ids of all instructions in order, with the context offset on all but the later lanes of vector selects |
| LtoIds.Pass.EmitSelect | AFLplusplus-dev/instrumentation/SanitizerCoverageLTO.so.cc:1942-2036 | The ids of one select, and the two vectors it chooses from as the code builds them |
| LtoIds.LanesArrive | AFLplusplus-dev/instrumentation/SanitizerCoverageLTO.so.cc:1985-2033 | All ids of a select reach it with their context offset if and only if its condition has one lane |
| LtoIds.AllBlocksNumbered | AFLplusplus-dev/instrumentation/SanitizerCoverageLTO.so.cc:2121-2123 | Every wanted block gets an id if and only if there is none, or TracePCGuard is on and there are no contexts or several callers |
| LtoIds.SingleCallerLosesBlocks | AFLplusplus-dev/instrumentation/SanitizerCoverageLTO.so.cc:2121-2123 | A function with one wanted block and no counted callers that gets no id with contexts on |
| LtoIds.PassesCanDisagree | AFLplusplus-dev/instrumentation/SanitizerCoverageLTO.so.cc:2146-2157 | A function at which the pass stops when blocks are not numbered by TracePCGuard |
| LtoIds.Pass.CountFunction | AFLplusplus-dev/instrumentation/SanitizerCoverageLTO.so.cc:1672-1746 | The counting pass counts the ids and puts the instruction counter back |
| LtoIds.Pass.InjectCoverage | AFLplusplus-dev/instrumentation/SanitizerCoverageLTO.so.cc:2255-2289 | Wanted blocks outside the block list get consecutive ids |
| LtoIds.InjectedAre | AFLplusplus-dev/instrumentation/SanitizerCoverageLTO.so.cc:2255-2289 | The blocks counted are those that are wanted and not in the block list |
| GrowthAlloc.RoundsUp | AFLplusplus-dev/include/alloc-inl.h:606-625 | Up to 2^63, next_pow2 is the least power of two not below its argument exactly when one less than the argument has no 32 clear bits in a row below a set one, so always up to 2^32 |
| GrowthAlloc.OverflowIsZero | AFLplusplus-dev/include/alloc-inl.h:606-625 | Above 2^63 it gives the documented 0 for an overflow exactly under the same condition |
| GrowthAlloc.RoundingFails | AFLplusplus-dev/include/alloc-inl.h:606-625 | At 2^40 + 1 it is not |
| GrowthAlloc.NextPow2 | AFLplusplus-dev/include/alloc-inl.h:606-625 | The shifts or each bit with the 31 above it, and no more |
| GrowthAlloc.NeverBelow | AFLplusplus-dev/include/alloc-inl.h:606-625 | It never goes below its argument except for the 0 that stands for an overflow |
| GrowthAlloc.Pointer.Realloc | AFLplusplus-dev/include/alloc-inl.h:663-716 | A call succeeds exactly when there is room or memory; a new capacity is the least power of two for the request (or 64) wherever next_pow2 is right, the old contents survive in front of zeros, failure frees, and growth stays amortised |
| GrowthAlloc.ServeAll | AFLplusplus-dev/include/alloc-inl.h:663-716 | Over any list of requests of up to 2^32 bytes, with any failures of realloc, all allocated for the present contents is at most twice their size, that is less than twice some request or at most 64, and without failures every request is covered |
| GrowthAlloc.ZeroIsServed | AFLplusplus-dev/include/alloc-inl.h:656-686 | The size asked for by a request for no bytes is the initial one |
| GrowthAlloc.NextSizeFits | AFLplusplus-dev/include/alloc-inl.h:683-696 | What a request asks for: 64 bytes if it is smaller, otherwise the least power of two with room for it exactly for the sizes next_pow2 rounds right, so always up to 2^32 |
| GrowthAlloc.NextSizeDoubles | AFLplusplus-dev/include/alloc-inl.h:683-696 | Outgrowing a power of two at least doubles it |
| GrowthAlloc.Pointer.AmortisedCost | AFLplusplus-dev/include/alloc-inl.h:656-662 | All sizes ever allocated for the contents add up to at most twice the last |
| GrowthAlloc.SumBound | AFLplusplus-dev/include/alloc-inl.h:656-662 | Sizes that double add up to at most twice the last |
| WideMul.Mult64To128 | AFLplusplus-dev/include/xxhash.h:4913-4927 | high * 2^64 + low is the product; no intermediate sum overflows |
| WideMul.Mul64x64To128 | AFLplusplus-dev/include/t1ha_bits.h:1172-1203 | The carry chains give the same product |
| WideMul.Add64CarryFirst | AFLplusplus-dev/include/t1ha_bits.h:1117-1131 | Carry and sum are the true sum |
| WideMul.Add64CarryNext | AFLplusplus-dev/include/t1ha_bits.h:1135-1149 | Carry and sum are the true sum with a carry in |
| WideMul.Add128 | AFLplusplus-dev/include/t1ha_bits.h:1369-1381 | Addition modulo 2^128 |
| WideMul.Mul128 | AFLplusplus-dev/include/t1ha_bits.h:1383-1396 | Multiplication modulo 2^128 |
| WideMul.Left128Value | AFLplusplus-dev/include/t1ha_bits.h:1293-1308 | left128 multiplies by a power of two modulo 2^128; no shift by the word size |
| WideMul.Right128Value | AFLplusplus-dev/include/t1ha_bits.h:1310-1325 | right128 divides by a power of two |
| WideMul.Rot128Value | AFLplusplus-dev/include/t1ha_bits.h:1355-1367 | rot128 moves the low bits above the others |
| WideMul.RotBack | AFLplusplus-dev/include/t1ha_bits.h:1355-1367 | Rotating on by the rest of 128 restores the value |

## Left out

- Mixing functions of the hashes (rounds, the short-input forms other than the empty one):
  parameters of the theorems.
- xxHash calls with a null input, misaligned pointers, `memsize + len` beyond the address space,
  and secrets shorter than 136 bytes other than in the calls that reject them.
- Xxh3History.Run: updates and digests on a state whose last reset failed are not covered, because
  the source leaves their result open.
- Xxh3Lanes.AccumulateVector: models the lanes that the SSE2, AVX2 and NEON steps compute, not the
  shuffles inside a register; the AVX-512, VSX and SVE forms are not modelled.
- afl-cmin: running the target, walking directories, linking files, hashing for deduplication and
  the `--no-dedup` path; traces are arbitrary inputs. Saving crashes to a directory is not
  modelled beyond its effect on the workers.
- CminMinimise.Minimise: which of several equally rare tuples is served first is left open, because
  the order of equally common tuples depends on the arrival of results.
- The order of messages of one worker on one queue is not kept; the theorems allow more orders.
- Havoc.Mutator.Mutate: on a run cut short by an empty tape only the bounds are stated.
- The weighted strategy tables, reseeding from `/dev/urandom`, and a failing allocation of the
  scratch buffer. Lengths are unbounded, so 32-bit wrap-around of `len + extra_len` is not modelled.
- RandBelow.Rng.Below: termination of the rejection loop is not modelled, because it holds only
  with probability one.
- PreallocList: a failing malloc; the memory of a freed element.
- The AVX2 and AVX-512 forms of `skim`, the contents of the class tables, and the callers of
  `discover_word`, which are not part of this model.
- LtoPruning: two edges between the same blocks are one; splitting critical edges leaves no such pair.
- LtoPruning.CoverageDetermined: supposes that all blocks are reachable and no critical edge is
  left; the pass cannot split the edges of indirect branches, and does not split edges into blocks
  that only say unreachable. Blocks skipped for want of an insertion point and the block list of the pass
  are not modelled there.
- LtoIds: the depth search for a function's callers, 32-bit overflow of ids, constant conditions
  that fold away the added select, the IJON state and the dictionary.
- GrowthAlloc.Pointer.Realloc: a request within eight bytes of 2^64, where the size wraps.
- `afl_realloc_exact`, the checked allocation table, the unaligned tail reads of t1ha and its
  compiled-in 128-bit integers.
