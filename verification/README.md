# Verified models of the systems coursework

This project models the algorithmic parts of a set of C (and a little Python) coursework programs
and proves what they promise on all inputs and over all runs: a path-compressed radix tree that
sorts, a size-class allocator, a bounded job queue with a parallel histogram on top, streaming
SHA-256, a k-d tree, branch predictors, a paged memory, a block-wise file transfer, robust I/O
loops and a UTF-8 recogniser. It is checked with `dafny verify dfyconfig.toml`.

One module stands for one program or one layer of it. Programs that change things in place are
classes and methods over arrays and nodes, proved against specification functions; what the
programs promise is then proved of those functions.

| file | program |
|---|---|
| `BitMasks.dfy`, `ByteLanes.dfy`, `Bytes.dfy`, `Basics.dfy` | C's bit operators on integers, bytes and byte orders |
| `RadixTrie.dfy`, `RadixTree.dfy`, `RadixProgram.dfy` | `Assignment4/predictor-benchmarks/radix.c`: the tree as a value, the pointer program, and `main` with its reads and writes |
| `Allocator.dfy`, `Decimal.dfy` | `Assignment4/predictor-benchmarks/lib.c` |
| `JobQueue.dfy`, `Histogram.dfy`, `WorkerPool.dfy` | `Assignment2/src-3`: queue, histograms, and every interleaving of producer and workers |
| `Sha256Words.dfy`, `Sha256Streaming.dfy`, `Sha256.dfy` | `Assignment3/src/sha256.c` against FIPS 180-4 |
| `KdTree.dfy` | `Assignment1/src-2` |
| `Predictors.dfy`, `PagedMemory.dfy` | `Assignment4/src` |
| `FileBlocks.dfy`, `FileTransfer.dfy`, `BlockAssembly.dfy`, `PeerList.dfy`, `RobustIO.dfy` | `Assignment3`: the wire format and the blocks, the C peer, the Python peer, its list of peers and the I/O helpers |
| `Utf8.dfy` | `Assignment0/file.c` |

How to read the models:

- C integers are unbounded integers with the wrap-around written out (`% M32`, `% M64`) wherever
  the program relies on it. The bitwise operators are functions on integers in two's complement.
- A node of the radix tree has a null pointer where the C leaf keeps its counters; each node
  carries two ghost fields, the one link that may point to it and the subtree below it as a value.
- A heap of the allocator is both a value (`Heap`: which blocks exist, which are in use, the free
  lists) and raw bytes; `Holds` says that the bytes and the headers represent the value, and
  `Separate` what a client relies on.
- A step of the worker pool is one lock-hold: from taking the mutex to giving it back, be it by
  unlocking or by waiting. Signals go to any one sleeper, and sleepers may wake up spuriously.
- `qsort` is a parameter that is only known to return a sorted permutation. Coordinates are reals.
- System calls are parameters or schedules: file contents are byte sequences, and `read` and
  `write` transfer as much as the next entry of a schedule allows, are interrupted, or fail.

- A program and its specification share some small functions and constants. Each of these has a
  law of its own that speaks of literal numbers, binary digits or positions only, such as
  `Sha256Words.SmallSigma0Bits`, `Histogram.BitOfIsDigit` or `Allocator.ServedExactly`.

Where the code does not do what one might expect:

- The k-d tree starts from `DBL_MAX` and the linear scan from `1e308`. They agree exactly unless
  the nearest record lies between the two (`SearchesAgree`, `SearchesCanDiffer`).
- `is_UTF8` reads code points up to 0x1FFFFF and surrogates, so it accepts more than section 3 of
  RFC 3629: an accepted file keeps to the standard if and only if none of its code points is a
  surrogate or above 0x10FFFF, which the first two bytes of each code point show
  (`StandardExactly`, `ScalarByBytes`; two files that do not: `AcceptedBeyondStandard`). It refuses
  most control characters and a file of nothing but 0x7F.
- `allocate` does not look whether the size overflows. The index it computes stays at or behind the
  start of the table of headers if and only if the request is at most `INT_MAX - 11`; above, it
  lies about 2^28 entries in front of it (`IndexExactly`, `IndexInFront`, `Allocate`).
- After a partial write the loop of radix.c writes from the front of its buffer again. A sorted
  buffer still comes out right if and only if the first write that took anything took all of it or
  all numbers in it are equal (`EmittedRight`; one that does not: `EmittedWrong`). What is in the
  output file is a function of the numbers held before, the requests and what the writes take
  (`WriteAll`), and it is right if and only if that holds of every buffer (`OutputExactly`,
  `Process`), as it does if every write may take 1000 numbers (`LargeWrites`).
- The C peer keeps a file's size in 32 bits and rounds it up to blocks in 32 bits. The sender stays
  within its buffer and the receiver ends with the file if and only if the size is at most
  2^32 - 8116 (`TransferExactly`). From there to 2^32 - 1 the block count wraps around to one, and
  the whole file is read into the buffer for a block (`ReadsFitExactly`, `LargestOverruns`); of a
  file of 2^32 bytes or more only a part is sent, if the low 32 bits of its size do not do the same
  (`SentPartExactly`).
- The Python peer does not repeat a call of `recv` that returns less than asked for, and slices of
  what came do not fail. As long as no payload has the hash of a proper prefix of itself, the data
  is delivered if and only if every length comes in one piece and so does the rest of every reply,
  of which only the last 32 bytes for the empty file may be missing (`DeliversExactly`).
- `compsys_helper_read` cuts its length to an `int`. For lengths of 2^31 and more the buffered read
  delivers what was asked for if and only if there is nothing to read or all of it fits into what
  is left of the length; at 2^31 it copies a negative number of bytes, at 2^32 it delivers none
  (`AskedExactly`, `NarrowedLengths`).
- `uns_to_str` returns one less than the number of digits, except that it returns 1 for zero.
- A reader of a line gets no terminating NUL when the stream is at its end (`ReadLineB`).
- The C peer writes whatever blocks arrive without looking at their hashes; the Python peer
  checks the hash of each block.

## Model

| member | source | states |
|---|---|---|
| BitMasks.MaskedDifference | Assignment4/predictor-benchmarks/radix.c:17-28 | where two numbers agree above the high position, masking their exclusive or with the bit range keeps exactly the differences above the low position |
| BitMasks.ScanStep | Assignment4/predictor-benchmarks/radix.c:54-54 | the scan for the most significant differing bit never passes it: either it is here, or the numbers agree one position further down and the scan may go on |
| RadixTrie.ListingIsNumbers | Assignment4/predictor-benchmarks/radix.c:94-128 | draining a tree yields each of its numbers exactly as often as the tree holds it |
| RadixTrie.ListingSorted | Assignment4/predictor-benchmarks/radix.c:94-128 | draining a well-formed tree yields ascending numbers |
| RadixTrie.InsertAddsOne | Assignment4/predictor-benchmarks/radix.c:31-91 | an insertion records exactly one more occurrence of its argument and changes no other count |
| RadixTrie.InsertWf | Assignment4/predictor-benchmarks/radix.c:31-91 | an insertion keeps the trie invariant: falling one-hot positions, agreement above them, sides split on the bit, no empty node |
| RadixTrie.InsertListing | Assignment4/predictor-benchmarks/radix.c:31-91 | seen as a sorted list, an insertion is insertion in order |
| RadixTrie.RestListing | Assignment4/predictor-benchmarks/radix.c:94-134 | taking k numbers removes exactly the first min(k, size) of the sorted listing, the smallest ones |
| RadixTrie.RestWf | Assignment4/predictor-benchmarks/radix.c:94-128 | taking numbers keeps the trie invariant; a tree that is left keeps its root position |
| RadixTrie.NothingLost | Assignment4/predictor-benchmarks/radix.c:163-193 | over every sequence of requests each number added is either written out or still held, as often as it was added, and what is held stays sorted |
| RadixTrie.ServeKeeps | Assignment4/predictor-benchmarks/radix.c:170-192 | one request conserves the numbers, writes them in ascending order, and nothing written exceeds anything left |
| RadixTrie.ServeExactly | Assignment4/predictor-benchmarks/radix.c:170-192 | a request of -N takes the min(N, size) first numbers and leaves the others, the least int takes none, and a request of N adds N and takes none |
| RadixTree.RadixTree.Scan | Assignment4/predictor-benchmarks/radix.c:54-54 | the inner loop stops at the most significant bit in which the two numbers differ |
| RadixTree.RadixTree.InjectBranch | Assignment4/predictor-benchmarks/radix.c:50-72 | injecting a branch above a subtree leaves a well-formed tree in which only the new number is still missing, at the empty side |
| RadixTree.RadixTree.Descend | Assignment4/predictor-benchmarks/radix.c:76-82 | going down at a branch leaves only the number missing, below the side its bit selects |
| RadixTree.RadixTree.Visit | Assignment4/predictor-benchmarks/radix.c:45-90 | one turn of the loop at an existing node either completes the tree or leaves the number missing at a place with a strictly smaller position |
| RadixTree.RadixTree.AddNumber | Assignment4/predictor-benchmarks/radix.c:31-91 | the loop, which rewrites its own counter and injects nodes, ends with exactly the inserted tree on the heap and the pointer invariant intact |
| RadixTree.RadixTree.TakeAtLeaf | Assignment4/predictor-benchmarks/radix.c:99-115 | the two drain loops fill the buffer with the leaf's numbers in order; an emptied leaf is unlinked |
| RadixTree.RadixTree.TakeNumbers2 | Assignment4/predictor-benchmarks/radix.c:94-128 | the recursion fills the buffer with the first numbers of the subtree, leaves the rest of it at the same place, makes the place null exactly when nothing is left, and touches no other node |
| RadixTree.RadixTree.TakeNumbers | Assignment4/predictor-benchmarks/radix.c:132-134 | returns the min(maxNums, size) smallest numbers in ascending order, leaves the others in the tree and the rest of the buffer alone |
| RadixTree.RadixTree.ReleaseTree | Assignment4/predictor-benchmarks/radix.c:137-145 | the recursion gives back the nodes below a link; no node given back before is looked at or given back again |
| RadixTree.RadixTree.ReleasesEachOnce | Assignment4/predictor-benchmarks/radix.c:137-145 | releasing the tree gives back every node of it exactly once, nothing else, and no node before a child of it |
| RadixTrie.ServeAllAppend | Assignment4/predictor-benchmarks/radix.c:163-193 | how the requests fall into batches makes no difference to a sorted list |
| RadixProgram.EmittedRight | Assignment4/predictor-benchmarks/radix.c:179-183 | whatever the writes take, a sorted buffer comes out right if and only if the first write that took anything took all of it or all its numbers are equal |
| RadixProgram.EmittedWrong | Assignment4/predictor-benchmarks/radix.c:179-183 | a buffer of 1 and 2 of which the first write takes one number comes out as 1 and 1 |
| RadixProgram.OnePartialWrite | Assignment4/predictor-benchmarks/radix.c:179-183 | in terms of what the first write takes: up to 1000 numbers come out right if and only if it takes all of them or all are equal |
| RadixProgram.FailsAtFirst | Assignment4/predictor-benchmarks/radix.c:179-183 | a first write that fails ends the program |
| RadixProgram.NoFailure | Assignment4/predictor-benchmarks/radix.c:172-187 | as long as no write fails everything is written, whatever the writes take |
| RadixProgram.WriteOut | Assignment4/predictor-benchmarks/radix.c:179-183 | what the loop writes of a buffer, each time from its front, which writes are then still to come, and whether one failed, under any partial, empty and failing writes |
| RadixProgram.NumbersRight | Assignment4/predictor-benchmarks/radix.c:172-187 | a sorted list written through the buffer arrives in full length, and unchanged if and only if every buffer is written clean |
| RadixProgram.TakeInChunks | Assignment4/predictor-benchmarks/radix.c:172-187 | taking up to 1000 numbers at a time takes the same numbers as one big take; what arrives is that list written through the buffer, as determined by the writes, unless one fails |
| RadixProgram.OutputExactly | Assignment4/predictor-benchmarks/radix.c:163-193 | over every sequence of requests as much is written as a sorted list would write, and exactly that if and only if every buffer is written clean, which the numbers held before, the requests and the writes to come determine |
| RadixProgram.WriteAllAppend | Assignment4/predictor-benchmarks/radix.c:163-193 | how the requests fall into batches makes no difference to what is written |
| RadixProgram.LargeWrites | Assignment4/predictor-benchmarks/radix.c:172-187 | every buffer is written clean if every write may take 1000 numbers |
| RadixProgram.ProcessBatch | Assignment4/predictor-benchmarks/radix.c:168-192 | a batch leaves the tree that a sorted list would, and appends to the file what its answers come to, written under the writes to come, unless one fails |
| RadixProgram.AnyInts | Assignment4/predictor-benchmarks/radix.c:164-167 | the requests may be any 32-bit ints |
| RadixProgram.Process | Assignment4/predictor-benchmarks/radix.c:147-198 | over every input, however it is read in batches, and under any writes: if no write fails, the requests served are all unless a read fails or ends early, the tree keeps exactly what a sorted list would after them, the file gets what they come to under these writes, which has the right length and is right if and only if every buffer is written clean, and every node is released once, after its children |
| Allocator.StoreLoad | Assignment4/predictor-benchmarks/lib.c:187-207 | a word stored in raw memory is read back, and no word that does not overlap it is disturbed |
| Allocator.LowByteFirst | Assignment4/predictor-benchmarks/lib.c:187-207 | a word is stored in four bytes, the least significant one first, and nothing else is touched |
| Allocator.BlockSizeRounds | Assignment4/predictor-benchmarks/lib.c:161-166 | the masked size is the least multiple of 8 that holds the request and its size field |
| Allocator.EveryByteAccounted | Assignment4/predictor-benchmarks/lib.c:153-208 | every byte handed out so far lies in exactly one block, which is either in use or on the free list of its class |
| Allocator.GoodIsSeparate | Assignment4/predictor-benchmarks/lib.c:153-208 | in every heap that keeps the invariant, blocks in use and free blocks of all lists lie inside the carved space and overlap neither within a kind nor between the kinds, and each block in use has room for the bytes asked for |
| Allocator.IndexExactly | Assignment4/predictor-benchmarks/lib.c:160-172 | in 32-bit arithmetic the index that is looked up is not in front of the table if and only if the request is at most INT_MAX - 11, and then size and index are the ones of the model |
| Allocator.IndexInFront | Assignment4/predictor-benchmarks/lib.c:160-172 | the last request that keeps to it, the first that does not, and INT_MAX, with their indices |
| Allocator.AllocateGood | Assignment4/predictor-benchmarks/lib.c:153-198 | allocate keeps the heap invariant, returns NULL exactly for requests below 1 or beyond the last class, gives at least the requested bytes, and takes nothing away from anyone, if the size does not overflow an int and a chunk still fits below 2^32 |
| Allocator.ServedExactly | Assignment4/predictor-benchmarks/lib.c:138-169 | allocate returns NULL exactly for requests below 1 and above 4084; the class of any other is the request plus 4, rounded up to a multiple of 8, over 8 |
| Allocator.WhereFrom | Assignment4/predictor-benchmarks/lib.c:170-198 | a block is the first one on the free list; if that is empty, it lies at free_space, which moves up by ten blocks, or twelve of the smallest class |
| Allocator.ReleaseGood | Assignment4/predictor-benchmarks/lib.c:200-208 | release keeps the heap invariant |
| Allocator.ReleaseThenAllocate | Assignment4/predictor-benchmarks/lib.c:153-208 | releasing a block and allocating the same size again gives the same block and the same heap |
| Allocator.ReachableBlocksApart | Assignment4/predictor-benchmarks/lib.c:148-208 | after every legal run of calls all blocks, in use or free, are disjoint and lie below free_space, and each block in use has at least the bytes asked for |
| Allocator.WriteInside | Assignment4/predictor-benchmarks/lib.c:187-207 | writing a byte inside a live block changes no free list and no size field |
| Allocator.CarveStep | Assignment4/predictor-benchmarks/lib.c:186-190 | one turn of the carving loop puts the next block in front of the list threaded through the chunk |
| Allocator.PopHolds | Assignment4/predictor-benchmarks/lib.c:193-196 | unlinking the first block and writing its size leaves the memory of the heap with that block in use |
| Allocator.PushHolds | Assignment4/predictor-benchmarks/lib.c:201-207 | linking a block in front of its list leaves the memory of the heap with that block free |
| Allocator.SmallBlockHeap.CarveChunk | Assignment4/predictor-benchmarks/lib.c:174-191 | an empty list is filled with a chunk of equal blocks, below which no byte changes |
| Allocator.SmallBlockHeap.Allocate | Assignment4/predictor-benchmarks/lib.c:153-198 | on every int the program looks in front of the table if and only if the size overflows; otherwise it returns NULL exactly for requests below 1 and above 4084, computes the specified heap and address in raw memory and leaves every byte that a client owns as it was |
| Allocator.SmallBlockHeap.Release | Assignment4/predictor-benchmarks/lib.c:200-208 | the size field leads back to the class; the heap becomes the one with the block released, and no other client's byte changes |
| Allocator.SmallBlockHeap.WriteByte | Assignment4/predictor-benchmarks/lib.c:187-207 | a client writing inside its block leaves the heap as it is |
| Allocator.SmallBlockHeap.Perform | Assignment4/predictor-benchmarks/lib.c:148-208 | one call of a client takes the specified step; blocks that stay in use keep their bytes but for one written |
| Allocator.SmallBlockHeap.Execute | Assignment4/predictor-benchmarks/lib.c:148-208 | over every legal run each byte of a block that is not released holds what was last written to it |
| Decimal.UnsToStr | Assignment4/predictor-benchmarks/lib.c:112-135 | the buffer holds the decimal numeral and a NUL, at most 11 bytes, and nothing else of it changes; the value returned is stated for both cases |
| Decimal.StrToUns | Assignment4/predictor-benchmarks/lib.c:104-110 | on any non-empty NUL-terminated text the result is the text's value modulo 2^32 |
| Decimal.NumeralValue | Assignment4/predictor-benchmarks/lib.c:104-135 | the numeral of a number consists of digits and denotes that number |
| Decimal.NumeralAppends | Assignment4/predictor-benchmarks/lib.c:118-125 | a digit d is the character 48 + d, and the numeral of 10 * v + d is that of v with this character behind it |
| Decimal.ValueAppends | Assignment4/predictor-benchmarks/lib.c:104-110 | a character c behind a text makes its value ten times as large, plus c - 48 |
| Decimal.ReverseInPlace | Assignment4/predictor-benchmarks/lib.c:126-133 | the second loop reverses the digits and leaves the rest of the buffer alone |
| Decimal.PrintThenParse | Assignment4/predictor-benchmarks/lib.c:104-135 | str_to_uns recovers every 32-bit value from what uns_to_str wrote |
| JobQueue.Ring.PushAppends | Assignment2/src-3/job_queue.c:52-54 | with room left, a push keeps the ring indices consistent and appends one job to the queue |
| JobQueue.Ring.PopTakesFirst | Assignment2/src-3/job_queue.c:71-73 | a pop keeps the ring indices consistent, returns the oldest job and removes only it |
| JobQueue.JobQueue.TryPush | Assignment2/src-3/job_queue.c:45-59 | one lock-hold of push appends the job, or changes nothing exactly when the queue is full |
| JobQueue.JobQueue.TryPop | Assignment2/src-3/job_queue.c:61-78 | one lock-hold of pop takes the oldest job, has to wait exactly when the queue is empty and open, and gives up exactly when it is empty and shut down |
| JobQueue.JobQueue.Finish | Assignment2/src-3/job_queue.c:80-86 | finish sets the flag and leaves the jobs alone |
| Histogram.UpdateHistogram | Assignment2/src-3/histogram.h:61-69 | each counter grows by its bit of the byte |
| Histogram.BitOfIsDigit | Assignment2/src-3/histogram.h:61-69 | counter b belongs to the b-th binary digit of a byte, the least significant being digit 0 |
| Histogram.CountersAreDigits | Assignment2/src-3/histogram.h:61-69 | there is a counter for every digit that a byte can have, and no other |
| Histogram.ByteIsItsBits | Assignment2/src-3/histogram.h:61-69 | what one byte adds to the eight counters, weighted by powers of two, is the byte |
| Histogram.CountIsPositions | Assignment2/src-3/histogram.h:61-69 | a file counts for bit b with the number of positions at which its b-th binary digit is 1 |
| Histogram.MergeHistogram | Assignment2/src-3/histogram.h:53-58 | the one histogram is added into the other and is zero afterwards |
| Histogram.LocalHistogram | Assignment2/src-3/fhistogram-mt.c:47-52 | a worker's local histogram counts the bits of the whole file |
| Histogram.FHistogram | Assignment2/src-3/fhistogram.c:23-52 | the periodic merges neither lose nor repeat a bit: the global histogram grows by the file's counts, or by nothing if it cannot be opened |
| Histogram.Sequential | Assignment2/src-3/fhistogram.c:75-86 | the sequential program computes the total over all files |
| Histogram.TotalPermutation | Assignment2/src-3/fhistogram.c:75-86 | the total depends on which files are counted how often, not on their order |
| Histogram.TotalOfOne | Assignment2/src-3/fhistogram.c:23-52 | one file counts with those positions, or not at all if it cannot be opened |
| Histogram.TotalsWeighted | Assignment2/src-3/fhistogram.c:75-86 | the eight totals, weighted by powers of two, are the sum of all bytes of all files that can be opened |
| WorkerPool.StepKeeps | Assignment2/src-3/job_queue.c:24-86 | every step of every thread keeps the invariant: FIFO order, no lost wakeup (a popper sleeps beside a non-empty queue only while as many woken poppers are on their way as there are jobs; none sleeps after the shutdown), and no count lost between the workers and the global histogram |
| WorkerPool.PushKeeps | Assignment2/src-3/job_queue.c:45-59 | a lock-hold of push keeps the invariant, whichever sleeper the signal wakes |
| WorkerPool.PopKeeps | Assignment2/src-3/job_queue.c:61-78 | a lock-hold of pop keeps the invariant, be it to sleep, to give up or to take a job |
| WorkerPool.FinishKeeps | Assignment2/src-3/job_queue.c:80-86 | the broadcast of finish leaves nobody asleep and keeps the invariant |
| WorkerPool.NoDeadlock | Assignment2/src-3/fhistogram-mt.c:27-149 | until the queue has been destroyed some thread can go on, without relying on a spurious wakeup |
| WorkerPool.StepUsesWork | Assignment2/src-3/fhistogram-mt.c:27-149 | every step that is no spurious wakeup uses up some of the work left |
| WorkerPool.RunsAreBounded | Assignment2/src-3/fhistogram-mt.c:27-149 | no schedule goes on for ever: a run has at most as many steps as there is work, plus two for each spurious wakeup |
| WorkerPool.InitialWork | Assignment2/src-3/fhistogram-mt.c:100-108 | the work at the start is linear in the number of files and threads |
| WorkerPool.CanFinish | Assignment2/src-3/fhistogram-mt.c:140-149 | from every reachable state the program can be run to its end |
| WorkerPool.ResultIsTotal | Assignment2/src-3/fhistogram-mt.c:137-149 | after finish, joins and destroy every path has been popped exactly once and in order, and the global histogram is the total over all readable files |
| WorkerPool.SequentialAgrees | Assignment2/src-3/fhistogram-mt.c:27-149 | for any number of workers and any interleaving the final histogram is the one the sequential program computes |
| WorkerPool.GivingUp | Assignment2/src-3/job_queue.c:64-68 | a worker gives up only when the queue is shut down and empty and every job has been taken |
| Sha256Words.ChRewritten | Assignment3/src/sha256.c:64-64 | the rewritten Ch is the Ch of section 4.1.2 of FIPS 180-4 |
| Sha256Words.MajRewritten | Assignment3/src/sha256.c:65-65 | the rewritten Maj is the Maj of section 4.1.2 of FIPS 180-4 |
| Sha256Words.ChBits | Assignment3/src/sha256.c:64-64 | equation 4.2 of FIPS 180-4, bit by bit: x chooses between y and z |
| Sha256Words.MajBits | Assignment3/src/sha256.c:65-65 | equation 4.3, bit by bit: at least two of three |
| Sha256Words.BigSigma0Bits | Assignment3/src/sha256.c:66-66 | equation 4.4: bit i of the result is the exclusive or of the bits i + 2, i + 13 and i + 22 modulo 32 of the argument |
| Sha256Words.BigSigma1Bits | Assignment3/src/sha256.c:67-67 | equation 4.5: likewise with 6, 11 and 25 |
| Sha256Words.SmallSigma0Bits | Assignment3/src/sha256.c:68-68 | equation 4.6: likewise with 7 and 18, and the bit i + 3 unless that lies beyond bit 31 |
| Sha256Words.SmallSigma1Bits | Assignment3/src/sha256.c:69-69 | equation 4.7: likewise with 17 and 19, and the bit i + 10 unless that lies beyond bit 31 |
| Sha256Words.ByteSwapReverses | Assignment3/src/sha256.c:112-113 | BYTESWAP of a word loaded on a little-endian machine is the word in big-endian order |
| Sha256Streaming.AbsorbPart | Assignment3/src/sha256.c:368-388 | bytes that do not fill the buffer only wait in it |
| Sha256Streaming.AbsorbBlock | Assignment3/src/sha256.c:383-387 | bytes that fill the buffer are hashed together with those waiting, as the next block of the whole message |
| Sha256Streaming.PaddingIsMinimal | Assignment3/src/sha256.c:402-409 | the padding is the one of section 5.1.1 of FIPS 180-4: a one bit and the fewest zero bits after which the length field ends on a block boundary |
| Sha256Streaming.LengthFieldIsLength | Assignment3/src/sha256.c:406-409 | below 2^64 bits the length field is the message's bit length in big-endian order |
| Sha256Streaming.PaddedInjective | Assignment3/src/sha256.c:402-409 | two different messages are never padded to the same blocks |
| Sha256.DoRoundIsRound | Assignment3/src/sha256.c:71-82 | DO_ROUND is a round of section 6.2.2 of FIPS 180-4 |
| Sha256.RoundEquations | Assignment3/src/sha256.c:71-82 | step 3 of section 6.2.2 of FIPS 180-4 as equations between the eight working variables before and after a round |
| Sha256.ScheduleStep | Assignment3/src/sha256.c:223-237 | step 1 of section 6.2.2: the first 16 words are those of the block in big-endian order, any other one is the sum of four words before it, two of them through the functions of equations 4.6 and 4.7 |
| Sha256.CompressEquations | Assignment3/src/sha256.c:248-317 | steps 2 to 4 of section 6.2.2: 64 rounds, each with its own constant and word of the schedule, then word by word the sum with the old hash |
| Sha256.RoundConstantsAreRoots | Assignment3/src/sha256.c:84-101 | section 4.2.2: the constants are the first 32 bits of the fractional parts of the cube roots of the first 64 primes |
| Sha256.InitialHashIsRoots | Assignment3/src/sha256.c:189-196 | section 5.3.3: the initial hash is made of the first 32 bits of the fractional parts of the square roots of the first eight primes |
| Sha256.DigestWords | Assignment3/src/sha256.c:411-423 | the 32 bytes of a digest are the eight words of the hash in order, each in big-endian order |
| Sha256.FillSchedule | Assignment3/src/sha256.c:221-237 | the moving pointers compute the message schedule of section 6.2.2 |
| Sha256.Guts | Assignment3/src/sha256.c:211-318 | SHA256Guts is the compression function of section 6.2.2 |
| Sha256.Context.constructor | Assignment3/src/sha256.c:181-198 | the fresh context stands for the empty message |
| Sha256.Context.Update | Assignment3/src/sha256.c:368-388 | however the message was cut up, the context afterwards is the one of the longer message: hash over its whole blocks, the remainder in the buffer, the bit length modulo 2^64 |
| Sha256.Context.UpdateFastCopy | Assignment3/src/sha256.c:327-366 | the second variant reaches the same context |
| Sha256.StoreDigest | Assignment3/src/sha256.c:411-423 | the loop that stores the digest byte by byte writes the words in big-endian order |
| Sha256.StoreDigestFastCopy | Assignment3/src/sha256.c:411-423 | on a little-endian machine the loop that stores swapped words writes the same bytes |
| Sha256.Context.Pad | Assignment3/src/sha256.c:402-409 | the two updates of the final step complete the padded message |
| Sha256.Context.Final | Assignment3/src/sha256.c:395-424 | in either compilation the digest is the hash of section 6.2 of FIPS 180-4 of everything absorbed |
| Sha256.SwappedLength | Assignment3/src/sha256.c:114-121 | BYTESWAP64 of the length lies in memory as the length field |
| Sha256.HashPieces | Assignment3/src/sha256.c:181-424 | init, any updates of either variant and a final step of either hash the concatenation of the pieces |
| KdTree.SortExists | Assignment1/src-2/coord_query_kdtree.c:44-48 | what is assumed of `qsort` can be met |
| KdTree.HalvedIsBalanced | Assignment1/src-2/coord_query_kdtree.c:50-56 | a tree split at the median everywhere has height floor(log2 n) + 1 |
| KdTree.MedianSplits | Assignment1/src-2/coord_query_kdtree.c:50-56 | the halves of a sorted slice and its median are all of it, with no key above the median's to the left and none below it to the right |
| KdTree.BuildKdTree | Assignment1/src-2/coord_query_kdtree.c:40-59 | the tree holds every record of the slice exactly once, is ordered on alternating axes and halved everywhere, and the array outside the slice is untouched |
| KdTree.MkKdTree | Assignment1/src-2/coord_query_kdtree.c:62-76 | the tree holds exactly the given records, ordered, at minimal height |
| KdTree.FirstSplits | Assignment1/src-2/coord_query_kdtree.c:43-48 | the root splits by longitude and its children by latitude |
| KdTree.DistanceAlongAxes | Assignment1/src-2/coord_query_kdtree.c:87-91 | a step of d along either axis is a distance of d * d |
| KdTree.DistancePythagoras | Assignment1/src-2/coord_query_naive.c:38-40 | a distance is the sum of those to the two projections on the axes through the query point |
| KdTree.PlaneBounds | Assignment1/src-2/coord_query_kdtree.c:118-121 | no record beyond a split plane is nearer than the plane |
| KdTree.PruneIsSafe | Assignment1/src-2/coord_query_kdtree.c:118-121 | skipping the far side when its plane is not strictly nearer loses nothing |
| KdTree.Search | Assignment1/src-2/coord_query_kdtree.c:95-122 | the pruned search improves the best record to the nearest one of the whole subtree |
| KdTree.LookupKdTree | Assignment1/src-2/coord_query_kdtree.c:124-130 | a nearest record, or NULL exactly when none is nearer than DBL_MAX |
| KdTree.LookupNaive | Assignment1/src-2/coord_query_naive.c:32-48 | a nearest record, or NULL exactly when none is nearer than 1e308 |
| KdTree.NoneIsNearer | Assignment1/src-2/coord_query_naive.c:32-48 | what either search finds is one of the records, and in terms of the coordinates no record is nearer |
| KdTree.TreeStart | Assignment1/src-2/coord_query_kdtree.c:126-126 | DBL_MAX is (2^53 - 1) * 2^971 |
| KdTree.NaiveStart | Assignment1/src-2/coord_query_naive.c:34-34 | the other search starts from 10^308 |
| KdTree.SearchesAgree | Assignment1/src-2/coord_query_kdtree.c:124-130 | the two searches give the same distance if and only if the nearest record does not lie between 1e308 and DBL_MAX |
| KdTree.SearchesCanDiffer | Assignment1/src-2/coord_query_naive.c:34-34 | an input on which only the k-d tree finds the record |
| KdTree.QueryBoth | Assignment1/src-2/coord_query_kdtree.c:132-137 | building the tree and asking both programs the same question gives agreeing answers under that condition |
| Predictors.MissesBounded | Assignment4/src/simulate.c:31-42 | a table of two-bit counters, however it is indexed, misses at most twice per taken branch, and at most twice per branch not taken plus once per entry |
| Predictors.NewCounter | Assignment4/src/simulate.c:31-42 | what a new counter predicts, and after the first branches |
| Predictors.CounterIsSlow | Assignment4/src/simulate.c:31-42 | after two branches of one kind that kind is predicted; after a third it takes two of the other kind to change that |
| Predictors.Sizes | Assignment4/src/simulate.c:14-15 | the tables have 256, 1024, 4096 and 16384 entries |
| Predictors.BimodalUses | Assignment4/src/simulate.c:63-67 | the bimodal predictor uses the word address of the branch modulo the size of the table |
| Predictors.HistoryIsRecent | Assignment4/src/simulate.c:80-80 | the history holds the last 32 branches: bit k says whether the branch k places from the end was taken |
| Predictors.GshareUses | Assignment4/src/simulate.c:74-74 | bit k of the index of gshare is bit k + 2 of the address, flipped if the branch k places back was taken |
| Predictors.EventAt | Assignment4/src/simulate.c:62-79 | a table sees every branch, in order, at the index computed from its address and the branches before it |
| Predictors.EntryTrained | Assignment4/src/simulate.c:71-71 | an entry is trained by the branches that use it, all of them in order and no others |
| Predictors.MissesCounted | Assignment4/src/simulate.c:68-78 | the misses of a table are the branches that its entry, trained by the branches before, predicts wrong |
| Predictors.TakenCounted | Assignment4/src/simulate.c:55-56 | the misses of always-not-taken are the branches that are taken |
| Predictors.BtfntCounted | Assignment4/src/simulate.c:58-60 | the misses of the static prediction are the backward branches that are not taken and the others that are |
| Predictors.RunExtends | Assignment4/src/simulate.c:62-80 | one branch more in the trace is one access more to each table, at the index computed from the program counter and the history |
| Predictors.UpdateTable | Assignment4/src/simulate.c:66-71 | an access predicts, counts a miss and trains one entry; all other sizes are untouched |
| Predictors.Statistics.constructor | Assignment4/src/simulate.c:44-52 | the fresh statistics stand for the empty trace |
| Predictors.Statistics.UpdateBranchStats | Assignment4/src/simulate.c:54-81 | the tables and all counters afterwards are those of the longer trace |
| Predictors.Statistics.NeverMuchWorse | Assignment4/src/simulate.c:54-81 | on every trace and for every size either predictor misses at most twice as often as always-not-taken, and at most twice as often as always-taken plus the table size |
| PagedMemory.Memory.constructor | Assignment4/src/memory.c:10-13 | every byte of a new memory reads as zero |
| PagedMemory.Memory.GetPage | Assignment4/src/memory.c:25-33 | creating a page cannot be observed |
| PagedMemory.Memory.WriteWord | Assignment4/src/memory.c:35-44 | an aligned write changes exactly its four bytes, an unaligned one nothing |
| PagedMemory.Memory.WriteHalf | Assignment4/src/memory.c:46-59 | an aligned write changes exactly its two bytes, an unaligned one nothing |
| PagedMemory.Memory.WriteByte | Assignment4/src/memory.c:61-80 | the write changes exactly one byte |
| PagedMemory.Memory.ReadWord | Assignment4/src/memory.c:82-91 | an aligned read returns its four bytes, little-endian, and changes nothing |
| PagedMemory.Memory.ReadHalf | Assignment4/src/memory.c:93-106 | an aligned read returns its two bytes zero-extended and changes nothing |
| PagedMemory.Memory.ReadByte | Assignment4/src/memory.c:108-128 | a read returns its byte zero-extended and changes nothing |
| FileBlocks.ReceiveWhatWasSent | Assignment3/src/peer.c:670-699 | a reply is parsed back from the front of any stream it was sent on |
| FileBlocks.SentIsWhatWasReceived | Assignment3/src/peer.c:670-699 | whatever is parsed would be sent as the bytes it was parsed from |
| FileBlocks.BlockHeader | Assignment3/src/peer.c:167-209 | where the fields of a reply lie, in bytes: the length of the payload, status 1, the numbers of the block and of all blocks in big-endian order, the two hashes, the payload; 8116 bytes of payload at most, as many blocks as that takes, one for an empty file |
| FileBlocks.AnyOrderRebuilds | Assignment3/src/peer.c:581-608 | writing the blocks of a file at their offsets in any order gives the file, byte for byte |
| FileBlocks.TransferDelivers | Assignment3/src/peer.c:167-211 | for every file whose blocks can be counted in 32 bits, in whatever order they are sent, the receiver ends with that file |
| FileBlocks.RetrievedExactly | Assignment3/src/peer.c:557-580 | no file is written if and only if no whole reply comes or the status of the first one is not 1; otherwise the number of replies awaited is the one in the first |
| FileBlocks.ArrivalsAreFront | Assignment3/src/peer.c:583-608 | the replies read are those at the front of the stream, as many as awaited or all that are there |
| FileBlocks.WrittenBytes | Assignment3/src/peer.c:583-600 | whatever replies arrive, the file ends with the last byte of any payload, and each byte is the one of the last reply that covers it, or zero if none does |
| FileTransfer.ReadsFitExactly | Assignment3/src/peer.c:167-186 | every read of the loop fits into its buffer if and only if the size can be rounded up to blocks in 32 bits; if not, there is one block and all of the size is read into it |
| FileTransfer.LargestOverruns | Assignment3/src/peer.c:167-186 | a size of 2^32 - 1 gives one block and a read of 2^32 - 1 bytes |
| FileTransfer.SentPartExactly | Assignment3/src/peer.c:155-155 | if the reads fit, the replies carry the whole file if and only if its size fits into 32 bits |
| FileTransfer.ReadsReply | Assignment3/src/peer.c:180-203 | if the reads fit, reading on from where the block before ended gives the payload and header of the next reply |
| FileTransfer.HandleRetrieve | Assignment3/src/peer.c:155-211 | the loop overruns its buffer if and only if the reads do not fit, before anything is sent; otherwise, if no call fails, it puts the reply of every block on the wire once and in order under any short writes and interruptions |
| FileTransfer.ReceiveReplyFrom | Assignment3/src/peer.c:670-699 | under any schedule of short reads a reply that is returned is the one at the front of the input, and only it is consumed; if no call fails, nothing is returned only when the input ends before it |
| FileTransfer.Retrieve | Assignment3/src/peer.c:563-611 | the receiving loop leaves the file that writing the replies in the order of arrival gives; if no call fails, of the whole exchange, and otherwise of its first replies |
| FileTransfer.Transfer | Assignment3/src/peer.c:563-611 | whatever the order of the blocks and the schedule of short reads and interruptions, the receiver ends with the file |
| FileTransfer.SentIsRetrieved | Assignment3/src/peer.c:155-211 | if the reads fit, what the sender's loop puts on the wire leaves the receiver with the part of the file it was sent |
| FileTransfer.TransferExactly | Assignment3/src/peer.c:155-211 | the sender stays within its buffer and the receiver of what it puts on the wire ends with the file if and only if the size is at most 2^32 - 8116 |
| FileTransfer.LargestTransferred | Assignment3/src/peer.c:155-211 | in numbers: the files of at most 0xffffe04c bytes |
| BlockAssembly.ReceiveWhole | Assignment3/python/first_peer/peer.py:607-617 | a reply that is all there, of which neither call of recv is cut short, is read as the C peer reads it |
| BlockAssembly.ReceiveCut | Assignment3/python/first_peer/peer.py:607-617 | what is read of a reply whose second part is cut short after any number of bytes |
| BlockAssembly.SendToServer | Assignment3/python/first_peer/peer.py:593-663 | the Python receiver's outcome on any stream and for any short results of recv: the joined data, a reported error or an exception |
| BlockAssembly.AssembledExactly | Assignment3/python/first_peer/peer.py:605-663 | in terms of the replies that can be read from the stream: an error is reported if and only if there is a first reply whose status is not 1 or whose hash is wrong, for an existing slot, with only right ones before it and a slot still empty; data is delivered if and only if a right reply so reached fills the last slot; and an exception ends every other call |
| BlockAssembly.OutcomeOf | Assignment3/python/first_peer/peer.py:605-663 | the same when some blocks have already arrived |
| BlockAssembly.DeliveredIsLatest | Assignment3/python/first_peer/peer.py:644-659 | the data delivered joins, slot by slot, the payload of the last reply for each slot |
| BlockAssembly.AssemblyDelivers | Assignment3/python/first_peer/peer.py:515-558 | whatever order the shuffle produces, the Python receiver delivers the data that was cut into blocks if enough of each reply comes at once |
| BlockAssembly.DeliversExactly | Assignment3/python/first_peer/peer.py:607-651 | unless a payload has the hash of a proper prefix of itself, it delivers the data, or anything, if and only if enough of each reply comes at once |
| BlockAssembly.LargeAnswers | Assignment3/python/first_peer/peer.py:607-613 | it is enough if every call of recv may return as many bytes as the longest reply holds |
| BlockAssembly.DeliveredIsChecked | Assignment3/python/first_peer/peer.py:635-651 | delivered data has one payload in every slot, each from a reply for that slot whose status was OK and whose hash was right |
| PeerList.EntryRoundTrip | Assignment3/src/peer.c:468-486 | an entry of 68 bytes has exactly one reading |
| PeerList.EntryAt | Assignment3/src/peer.c:464-487 | entry i of a list starts at byte 68 * i |
| PeerList.ListBytesInjective | Assignment3/src/peer.c:464-487 | no two peer lists are written the same |
| PeerList.Network.BuildPayload | Assignment3/src/peer.c:464-487 | the payload is the list of entries |
| PeerList.Network.UpdateFromPayload | Assignment3/src/peer.c:625-658 | a payload that is no whole number of entries changes nothing; any other one is replaced by the list that is written like it |
| RobustIO.Descriptor.ReadN | Assignment3/src/compsys_helpers.c:40-59 | under any schedule the bytes delivered are a prefix of the input and the rest stays; min(n, available) of them unless a call fails |
| RobustIO.Descriptor.WriteN | Assignment3/src/compsys_helpers.c:64-81 | everything is written, once and in order, or a prefix of it if a call fails |
| RobustIO.Reader.constructor | Assignment3/src/compsys_helpers.c:86-91 | a new reader has the whole input before it |
| RobustIO.AskedExactly | Assignment3/src/compsys_helpers.c:96-111 | for which lengths and which amounts of unread data the length cut to an int still gives what was asked for |
| RobustIO.NarrowedLengths | Assignment3/src/compsys_helpers.c:29-32 | 2^31 is the first length at which a negative number of bytes is copied, and 2^32 one at which nothing is delivered |
| RobustIO.Reader.HelperRead | Assignment3/src/compsys_helpers.c:11-35 | a negative number of bytes is copied exactly if the length cut to an int is negative and there is something to read (or the call failed before); otherwise delivered bytes and unread bytes are the stream as it was; min(n, buffered) bytes and no system call while the buffer holds any; 0 only at the end or for a length of 0, -1 only after a failed call |
| RobustIO.Reader.ReadNB | Assignment3/src/compsys_helpers.c:96-111 | for every length it delivers the smaller of what there is and of the low 32 bits of the length, or copies a negative number of bytes under the same condition; no byte is lost or repeated even when a call fails |
| RobustIO.Reader.ReadLineB | Assignment3/src/compsys_helpers.c:116-138 | delivers one line, ending at the first newline, the limit or the end of the stream, NUL-terminated as stated, and no byte is lost or repeated |
| RobustIO.EndOfLine | Assignment3/src/compsys_helpers.c:116-138 | no byte 10 comes before the last byte of a line, and a line that neither the limit nor the end of the stream ends has one there |
| RobustIO.ChunksStep | Assignment3/src/compsys_helpers.c:96-138 | one call more takes its chunk from what the calls before have left |
| RobustIO.ReadAll | Assignment3/src/compsys_helpers.c:96-138 | any mix of calls gets chunks that depend on the stream alone, not on short reads or interruptions, and with what is unread they are the stream; whether some call copies a negative number of bytes depends on the stream alone too |
| Utf8.NextIsThere | Assignment0/file.c:87-119 | what the branches accept at the front of a stream is exactly the one allowed code point whose shortest form is there |
| Utf8.UniqueDecoding | Assignment0/file.c:75-124 | no two texts are encoded by the same bytes |
| Utf8.EncodedExamples | Assignment0/file.c:85-118 | the examples of section 7 of RFC 3629, and the encodings on both sides of each change of length |
| Utf8.DecodingIsForced | Assignment0/file.c:79-121 | once a prefix has been read, every other reading of the whole file starts with the same code points |
| Utf8.LeadMasks | Assignment0/file.c:85-118 | what the masks test: the ranges of lead and continuation bytes and their payload bits |
| Utf8.CodepointMasks | Assignment0/file.c:96-115 | the shifts and ors put the payload bits together as digits in base 64 |
| Utf8.IsUtf8 | Assignment0/file.c:75-124 | accepts exactly the concatenations of shortest-form encodings of allowed code points, at least one of them not 0x7F, and rewinds the file |
| Utf8.StandardExactly | Assignment0/file.c:75-124 | an accepted file is text by section 3 of RFC 3629 if and only if none of its code points is a surrogate or above 0x10FFFF |
| Utf8.ScalarByBytes | Assignment0/file.c:85-118 | the bytes by which a caller can tell: a lead byte 0xED before 0xA0 or more, 0xF4 before 0x90 or more, or a lead byte above 0xF4 |
| Utf8.AcceptedBeyondStandard | Assignment0/file.c:96-115 | two accepted files that are not text by the standard: a surrogate and a code point above 0x10FFFF |
| Utf8.IsAscii | Assignment0/file.c:25-39 | accepts exactly the files of ASCII bytes without most control characters |
| Utf8.IsIso8859 | Assignment0/file.c:42-70 | accepts exactly the files without control characters that hold a basic character and a high one |
| Utf8.BytesAllowed | Assignment0/file.c:25-70 | which byte values the tests allow, in numbers |
| Utf8.WhatUtf8Adds | Assignment0/file.c:129-135 | after the ASCII test, the UTF-8 test decides whether the file decodes and has a code point from 0x80 on |
| Utf8.DetectType | Assignment0/file.c:129-135 | what each answer says about the bytes of the file, in both directions |

## Left out

- Allocator.AllocateGood: a chunk that does not fit below 2^32, which the code does not look for, is left out, and requests whose size overflows are the matter of `IndexExactly` (`HasRoom`).
- Allocator.SmallBlockHeap.Allocate: such chunks are left out too; the heap is taken to start at or above address 4096, below which the carving loop of the C code could pass address zero; and nothing is said of what a lookup in front of the table finds.
- Allocator.SmallBlockHeap.Execute: follows the blocks in use at the start of the run; a block allocated later is followed by the rest of the run from there.
- RadixProgram.Process: files that do not open are left out, and a leaf's counters do not overflow.
- RadixProgram.WriteOut: a failed write returns a negative count, which makes the loop of radix.c count up; nothing is said of what it does then. A file that never takes anything again is left out.
- WorkerPool.NoDeadlock: covers the order finish, join, destroy of fhistogram-mt.c with one producer; a queue of capacity 0, a failed `malloc`, the destroy-before-join of fibs.c and the pop test of fauxgrep-mt.c are not part of it.
- WorkerPool.SequentialAgrees: `int` overflow of the histogram counters and of the byte counter of a file over 2 GB, printing, and files that change while they are read are left out.
- Sha256.Context.Final: the byte order is that of a little-endian machine, the unroll factor is 4, and the wiping of the stack is left out.
- KdTree.SearchesAgree: coordinates are reals, so rounding and not-a-number are left out; the order of equal records, which `qsort` may choose, is not fixed.
- Predictors.Statistics.UpdateBranchStats: `taken` is a boolean, as its callers pass it; the simulator around it, the disassembler, the ELF reader and system calls are left out.
- PagedMemory.Memory.WriteWord: an unaligned access ends the program in C; here the method reports it.
- FileTransfer.HandleRetrieve: what happens after the buffer has been overrun is left out, and so are errors while the file is read; after a failed write the loop goes on, and nothing is said of what is on the wire then.
- FileTransfer.Retrieve: the receiver in C does not compare hashes, so neither does the model; the file is taken to open and to be writable, and what it held before is overwritten.
- BlockAssembly.SendToServer: a `recv` that fails is left out; the hash of the whole is only reported by the code.
- PeerList.Network.UpdateFromPayload: the existence check before a registration, the signatures and salts, and concurrent registrations are left out.
- RobustIO.Reader.HelperRead: what happens after a negative number of bytes has been copied is left out.
- RobustIO.Reader.ReadNB: the same is left out.
- RobustIO.Descriptor.WriteN: `write` is taken never to return 0.
- Sockets, threads, terminal drawing, argument parsing, record parsing, `id_query`, the prime sieve, the exercises, the unfinished `Assignment2/src` and the other Python peers: input and output, or little to prove.
