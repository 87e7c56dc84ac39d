# A verified model of a parallel k-mer counter

The program counts the k-mers (substrings of length `k`) of the DNA in a
FASTA file. It has the following stages:

1. A `FastReader` cuts the file into bundles of at most `blockSize` characters.
2. The text of each bundle is split into k-mers.
3. Neighbouring k-mers that share a minimizer are grouped into super-mers. A
   minimizer is the leftmost lexicographically least substring of length `m`.
4. Each super-mer becomes a `KmerBlock` of k-mers, pushed onto a queue.
5. Worker threads pop blocks and insert the k-mers into their own open-addressing
   `QuadraticHashTable`.
6. `Hasher::mergeResults` folds the tables into one map of counts.

Two generators write test input: `generateTestFasta`, and a Python script that
writes `>seq<id>` records of 80 random bases until a byte target is reached.

The model is in Dafny, one module per concern:

| file | module | models |
|---|---|---|
| `strings.dfy` | `Strings` | `std::string::operator<` as an explicit lexicographic order (a proper prefix is smaller), and list flattening |
| `chunking.dfy` | `Chunking` | the cutting of a text into blocks of `bs` characters, the shared specification of both readers |
| `dna.dfy` | `Dna` | the alphabet `ACGT` and the index a random draw yields |
| `data_structs.dfy` | `DataStructs` | `KmerBlock`, `FastBundle` and the `std::queue<KmerBlock*>` as classes |
| `pipeline.dfy` | `Pipeline` | `src/pipeline.cpp`: the line reader, k-mers, minimizers, super-mers, the queue filler, `generateTestFasta`, and the super-mer stage of `main` |
| `phase1.dfy` | `Phase1` | `src/phase1.cpp`: the raw-byte reader and its `generateKmers` |
| `counting.dfy` | `Counting` | the slots of a table as values, `exportToMap` as a fold, and the merge of several tables |
| `hash_table.dfy` | `HashTable` | `QuadraticHashTable` as a class over two arrays, with its probing invariant |
| `hasher.dfy` | `Hashing` | `Hasher` as a class holding a sequence of tables; the workers draining the queue |
| `fasta_generator.dfy` | `FastaGenerator` | `data/script_generate_fasta.py` |

Code that changes state is modelled as methods that change state:

- The readers, the k-mer and super-mer loops and the generators are methods
  with loops. Each is proved equal to a specification function, and the
  properties of that function are proved as lemmas.
- `QuadraticHashTable` keeps `keys` and `values` in arrays. Its `insert` probe
  loop is proved to keep a validity invariant:
  - keys are unique;
  - occupied slots count at least 1;
  - `numElements` counts the occupied slots plus the inserts of `""`;
  - while `""` was never inserted, every empty slot counts 0;
  - each stored key sits at the first probe of its probe sequence that was
    not taken by another key, so a later lookup finds it.
- `Hasher` has a sequence of tables. Its methods are proved against
  `Snapshots()`, the tables as values, and against the accounting of every
  k-mer popped from the queue.

Threads are not modelled. A `schedule` names the worker that pops each block.
The queue is first-in first-out, so any interleaving of the workers gives each
table its blocks in pop order, and the merged result holds for every schedule.

Facts about the code that its comments and tests do not say, or say
otherwise; the model follows the code:

- The Python script tests its loop condition before writing, so a target of
  0 bytes (or less) writes no record at all.
- Every record of the script is 87 bytes while the ids have one digit, so a
  target of 200 bytes takes three records (`FastaGenerator.TargetOf200`).
- The script's comments call its byte count approximate, but it is exactly
  the number of characters written (`FastaGenerator.Generate`).
- A unit test expects `computeSuperMers("AAGAACT", 3, 5)` to return
  `{"AAGAA", "ACT"}`. The code returns `{"AAGAA", "AGAACT"}`: a super-mer is
  always written as the whole substring its k-mers span.
- A unit test expects 5-character bundles from a reader built with the default
  1 MiB block size. The model uses the block size the reader is given.

## Model

| member | source | states |
|---|---|---|
| Strings.LessIrreflexive | src/pipeline.cpp:80 | no string is smaller than itself under `std::string` order |
| Strings.LessTransitive | src/pipeline.cpp:80 | the string order used to pick minimizers is transitive |
| Strings.LessTotal | src/pipeline.cpp:80 | of two different strings, one is smaller: the order is total |
| Strings.LessAsymmetric | src/pipeline.cpp:80 | `a < b` excludes `b < a` |
| Chunking.Chunks | src/pipeline.cpp:43-59 | every block has between 1 and `bs` characters, and all but the last have exactly `bs` |
| Chunking.ChunksFlatten | src/pipeline.cpp:43-59 | joining the blocks gives the text back: nothing is lost, duplicated or reordered |
| Chunking.ChunksCount | src/phase1.cpp:38-47 | there are as many blocks as `bs` fits into the length, rounded up, and none for an empty text |
| Chunking.ChunksUnique | src/phase1.cpp:38-47 | any list of blocks shaped like a reader's output that joins to `s` is `Chunks(s, bs)` |
| DataStructs.KmerBlock.constructor | src/data_structs.h:11-13 | `KmerBlock(expectedKmers)` starts with no k-mer, whatever the capacity |
| DataStructs.KmerBlock.Empty | src/data_structs.h:15 | `KmerBlock()` starts with no k-mer |
| DataStructs.FastBundle.constructor | src/data_structs.h:19-23 | a new bundle is empty and not finalized, whatever `size` is |
| DataStructs.FastBundle.AddBlock | src/data_structs.h:25-27 | `buf[0..n)` is appended, earlier data is kept, the size grows by `n`, `finalized` is unchanged |
| DataStructs.FastBundle.Finalize | src/data_structs.h:29 | sets `finalized` and keeps the data |
| DataStructs.NewBundle | src/pipeline.cpp:44-47 | construct, add and finalize give a fresh finalized bundle holding exactly `buf[..n]` |
| DataStructs.KmerQueue.constructor | src/pipeline.cpp:217 | the queue starts empty |
| DataStructs.KmerQueue.Push | src/pipeline.cpp:155 | `push` appends at the back |
| DataStructs.KmerQueue.Pop | src/Hasher.cpp:22-25 | `front` then `pop` on a non-empty queue returns the oldest block and removes only it |
| Pipeline.FastReader.constructor | src/pipeline.cpp:21-22 | the reader keeps the block size it is given |
| Pipeline.FastReader.EmitFullBlocks | src/pipeline.cpp:43-50 | the inner loop emits full blocks only, leaves less than a block in the buffer, and keeps the text read so far |
| Pipeline.FastReader.ReadFile | src/pipeline.cpp:24-62 | the bundles are exactly `Chunks` of the kept lines joined, each finalized: header and empty lines are dropped, the DNA is kept in order, and every bundle but the last holds `blockSize` characters |
| Pipeline.ReadingDone | src/pipeline.cpp:53-59 | pushing a non-empty rest as the last bundle completes the cutting of the whole DNA |
| Pipeline.Kmers | src/pipeline.cpp:66-74 | no k-mer for a string shorter than `k`, otherwise one per start position, the length less `k` plus one |
| Pipeline.KmersIndex | src/pipeline.cpp:70-72 | k-mer `i` is the window `s[i..i+k]` |
| Pipeline.GenerateKmers | src/pipeline.cpp:66-74 | `[]` for a string shorter than `k`; otherwise every window `s[i..i+k]` of length `k`, in order |
| Pipeline.KmersOfSlice | src/pipeline.cpp:113 | the k-mers of a substring are the matching range of the string's k-mers |
| Pipeline.LeftmostLeastIsLeast | src/pipeline.cpp:76-85 | the scan's position holds a window no larger than any window before the bound, and strictly smaller than every earlier one |
| Pipeline.Minimizer | src/pipeline.cpp:76-85 | the minimizer has length `m` |
| Pipeline.MinimizerIsLeast | src/pipeline.cpp:76-85 | the minimizer is `<=` every length-`m` window of the string |
| Pipeline.MinimizerUnique | src/pipeline.cpp:76-85 | any window `<=` all windows equals the minimizer: it is determined by the order alone |
| Pipeline.ComputeMinimizer | src/pipeline.cpp:76-85 | the loop returns the length-`m` window that is least, the leftmost one on ties |
| Pipeline.MinimizerListIndex | src/pipeline.cpp:87-96 | entry `t` is the minimizer of k-mer `t`, one entry per k-mer |
| Pipeline.ComputeAllMinimizers | src/pipeline.cpp:87-96 | the loop fills one minimizer per k-mer, in order |
| Pipeline.KmersOfAllCons | src/pipeline.cpp:143-149 | the k-mers of a list of super-mers are those of the first followed by those of the rest |
| Pipeline.KmersOfAllAppend | src/pipeline.cpp:213 | the k-mers of appended super-mer lists are the appended k-mers |
| Pipeline.SuperMersKmers | src/pipeline.cpp:98-122 | expanding the super-mers back into k-mers gives exactly `generateKmers(s, k)`, in order; for a string shorter than `k` the result is the single empty super-mer |
| Pipeline.SuperMersMaximal | src/pipeline.cpp:106-120 | every super-mer is at least `k` long, every k-mer in it has the minimizer of its first k-mer, and neighbouring super-mers have different minimizers |
| Pipeline.ComputeSuperMers | src/pipeline.cpp:98-122 | the scan with `curSuperMer` and `curMinimizer` returns exactly the runs `SuperMers` defines |
| Pipeline.SuperMerToKmers | src/pipeline.cpp:124-134 | `superMerToKmers` is `generateKmers`: `[]` for a short super-mer, otherwise every window in order |
| Pipeline.SuperMersOfAllKmers | src/pipeline.cpp:206-214 | the super-mers collected over all bundles expand to the k-mers of each bundle, bundle after bundle |
| Pipeline.CollectSuperMers | src/pipeline.cpp:206-214 | `main`'s loop over bundles appends each bundle's super-mers in order, so a k-mer spanning two bundles is never produced |
| Pipeline.MakeBlock | src/pipeline.cpp:144-148 | a fresh block holding exactly the k-mers of the super-mer, in order |
| Pipeline.PushAll | src/pipeline.cpp:154-156 | a batch is pushed in order at the back of the queue |
| Pipeline.PushSuperMersToQueue | src/pipeline.cpp:136-172 | one fresh block per super-mer is appended, in input order, block `j` holding `superMerToKmers(superMers[j], k)`; earlier entries are kept, so batching by 10 changes neither order nor content |
| Pipeline.GenerateTestFasta | src/pipeline.cpp:176-188 | the text is `">synthetic\n"`, then `length` bases drawn from `ACGT`, then `"\n"` |
| Pipeline.SyntheticReadsBack | src/pipeline.cpp:183-187 | reading the synthetic file back gives exactly the drawn bases |
| Phase1.FastReader.constructor | src/phase1.cpp:26-27 | the reader keeps the block size it is given |
| Phase1.Read | src/phase1.cpp:39-40 | `read` plus `gcount` copies the next bytes, as many as fit or as are left, and says how many |
| Phase1.ConsumeLast | src/phase1.cpp:38-47 | the short read that ends the stream completes the cutting of the whole file |
| Phase1.FastReader.ReadFile | src/phase1.cpp:29-50 | the bundles are exactly `Chunks` of the file's bytes, headers and line breaks included, each finalized; an empty file gives none |
| Phase1.GenerateKmers | src/phase1.cpp:54-62 | same result as the pipeline's `generateKmers` |
| Counting.CountUpToUpdate | src/QuadraticHashTable.h:36-46 | rewriting one slot changes a key's count by exactly the change in that slot's share |
| Counting.ExportGet | src/QuadraticHashTable.h:68-74 | exporting adds the table's count of each key to its entry: `map[key] += value` over the occupied slots |
| Counting.ExportKeys | src/QuadraticHashTable.h:68-74 | exporting adds exactly the stored keys and removes none; empty slots add nothing |
| Counting.MergeGet | src/Hasher.cpp:38-44 | the merged map gives each key its count summed over all tables |
| Counting.MergeKeys | src/Hasher.cpp:38-44 | the merged map holds exactly the keys stored in some table |
| Counting.TotalUpdate | src/Hasher.cpp:30-34 | changing one worker's table changes the total by that table's change only |
| Counting.BlankTotal | src/QuadraticHashTable.h:23-26 | tables whose slots are all empty count nothing |
| Counting.TotalPositive | src/QuadraticHashTable.h:36-46 | when occupied slots count at least 1, a key has a positive total exactly when some table stores it |
| Counting.MergeKeysPositive | src/Hasher.cpp:38-44 | the merged map holds exactly the non-empty keys with a positive count, and no zero entry |
| HashTable.Slot | src/QuadraticHashTable.h:34 | every probe lands inside the table |
| HashTable.FirstProbeSpec | src/QuadraticHashTable.h:33-53 | `insert` gives up only when each of the probes `0..maxSteps` lands on another key; otherwise it stops at the first probe whose slot is empty or holds the key |
| HashTable.RejectsIff | src/QuadraticHashTable.h:33-53 | `insert` gives up exactly when every probe `0..maxSteps` of the key lands on a slot holding another key |
| HashTable.RejectsKept | src/QuadraticHashTable.h:36-46 | slots are never freed or rekeyed, so a key a table rejects stays rejected after further inserts |
| HashTable.RejectsOther | src/QuadraticHashTable.h:48-52 | a key is rejected only when its first probe slot holds another, non-empty key |
| HashTable.EmptyInv | src/QuadraticHashTable.h:18-27 | an all-empty table satisfies the invariant with no element |
| HashTable.FindsStored | src/QuadraticHashTable.h:33-46 | under the invariant the probe sequence of a stored key reaches its slot, so it is never stored a second time |
| HashTable.AbsentWhenEmptyFound | src/QuadraticHashTable.h:36-41 | when probing reaches an empty slot, the key is stored nowhere in the table |
| HashTable.CountOfKey | src/QuadraticHashTable.h:68-74 | a stored key's count is its slot's value, at least 1; a key stored nowhere counts 0 |
| HashTable.ClaimInv | src/QuadraticHashTable.h:36-41 | storing a new key at its first free probe keeps the invariant with one more occupied slot |
| HashTable.BumpInv | src/QuadraticHashTable.h:43-46 | incrementing a stored key's count keeps the invariant |
| HashTable.CountAfterWrite | src/QuadraticHashTable.h:36-46 | either write of `insert` adds exactly one to the key's count and changes no other count |
| HashTable.QuadraticHashTable.constructor | src/QuadraticHashTable.h:18-27 | `size` slots, all with key `""` and value 0, `numElements == 0`, the given `maxSteps`, and the invariant holds |
| HashTable.QuadraticHashTable.Insert | src/QuadraticHashTable.h:29-54 | only probe slots `0..maxSteps` matter. After `maxSteps + 1` collisions the result is false and nothing changes. At a first empty probe the key is stored with value 1 and `numElements` grows by one. At the key's own slot only its value grows. The result is false exactly when the table rejects the key; no slot loses its key. The count of the key rises by one exactly when the insert succeeds, no other count changes, and the invariant is kept |
| HashTable.QuadraticHashTable.Claim | src/QuadraticHashTable.h:36-41 | the empty-slot branch: only that slot changes, to the key with value 1, `numElements` grows by one |
| HashTable.QuadraticHashTable.Bump | src/QuadraticHashTable.h:43-46 | the present-key branch: only that slot's value grows, `numElements` is unchanged |
| HashTable.QuadraticHashTable.InsertAll | src/Hasher.cpp:30-34 | inserting a block's k-mers one by one adds each non-empty k-mer's occurrences to its count, except those whose insert gave up; each of those is rejected by the table at the end, and no slot loses its key |
| HashTable.QuadraticHashTable.InsertNext | src/Hasher.cpp:31-33 | one insert of the block's loop: the k-mer counts once more, or it joins the failed list and is rejected by the table; earlier failures stay rejected |
| HashTable.QuadraticHashTable.ExportToMap | src/QuadraticHashTable.h:68-74 | the map gains each stored key's count (`+=`), keeps every other entry, gains exactly the stored keys, and the table is unchanged |
| Hashing.BlockKmersOfSuperMers | src/pipeline.cpp:143-149 | blocks made from super-mers hold, together and in order, the k-mers of all of them |
| Hashing.QueueHoldsKmers | src/pipeline.cpp:206-259 | the queue filled from the collected super-mers holds exactly the k-mers of every bundle, in order |
| Hashing.AccountBlock | src/Hasher.cpp:30-34 | inserting one block into one table keeps the count of every popped k-mer accounted for |
| Hashing.MergeFacts | src/Hasher.cpp:38-44 | the merged map gives each key its total over the tables, holds exactly the stored keys, and has no zero entry |
| Hashing.NewTables | src/Hasher.cpp:8-10 | `threads` fresh, empty, pairwise distinct tables with the given size and `maxSteps` |
| Hashing.Hasher.Snapshots | src/Hasher.cpp:14 | one table per worker, each well formed with occupied slots counting at least 1 |
| Hashing.Hasher.constructor | src/Hasher.cpp:6-11 | the shared queue, `numThreads` fresh tables of `tableSize` slots and `maxSteps` probes, `workComplete` false, an empty map, and no key counted |
| Hashing.Hasher.TakeBlock | src/Hasher.cpp:22-25 | the oldest block leaves the queue and the tables do not change |
| Hashing.Hasher.ProcessBlock | src/Hasher.cpp:30-34 | a block's k-mers go into the worker's own table only: its counts grow by the block's k-mers, less the failed inserts, which that table rejects; it keeps its keys, and every other table is unchanged |
| Hashing.Hasher.WorkerStep | src/Hasher.cpp:16-35 | one turn of the worker loop: pop the oldest block and count its k-mers in the worker's table only, less the failed inserts, which that table rejects |
| Hashing.Hasher.DrainQueue | src/Hasher.cpp:13-36 | once the queue is empty, the tables' totals have grown by every k-mer of every block, less the failed inserts, whatever worker took which block; each failed k-mer is rejected by some table at the end |
| Hashing.RejectedStep | src/Hasher.cpp:30-34 | after one worker's block, every k-mer that failed so far is still rejected by some table |
| Hashing.Hasher.SignalComplete | src/Hasher.cpp:53-59 | sets `workComplete`; the tables and the map are unchanged |
| Hashing.Hasher.ExportAll | src/Hasher.cpp:41-43 | exporting every table into an empty map gives the merge of the tables |
| Hashing.Hasher.MergeResults | src/Hasher.cpp:38-44 | the map is cleared, then it is the merge of the tables, which do not change; so a second call gives the same map |
| Hashing.Hasher.GetResults | src/Hasher.cpp:61-63 | returns the merged map and changes nothing |
| Hashing.RunWorkers | src/pipeline.cpp:222-269 | after the workers drain the queue and completion is signalled, the tables, all built with the same parameters, count every non-empty k-mer of the blocks once per occurrence, less the failed inserts, each rejected by some table |
| Hashing.ResultFacts | src/pipeline.cpp:272-274 | from tables that started empty, the merged map counts each k-mer once per occurrence less its failed inserts, exactly for a k-mer no table rejects; a failed k-mer implies another counted k-mer; the map holds exactly the k-mers with a positive count, and is empty for an empty queue |
| Hashing.CountKmers | src/pipeline.cpp:222-274 | the counting stage: `results[x]` plus the failed inserts of `x` is the number of occurrences of `x` in the blocks, whatever the schedule. A failed insert of `x` means some final table has every probe of `x` taken by other keys, so another k-mer is in the results; a k-mer no table rejects is counted exactly. An empty queue gives an empty map |
| FastaGenerator.Decimal | data/script_generate_fasta.py:18 | `f"{seq_id}"` is a non-empty string of digits with no leading zero |
| FastaGenerator.DecimalRoundTrip | data/script_generate_fasta.py:18 | reading a numeral back gives the number it was written from |
| FastaGenerator.HeadersDistinct | data/script_generate_fasta.py:15-24 | records with the same header have the same id: ids are never repeated |
| FastaGenerator.BaseLine | data/script_generate_fasta.py:20-21 | each sequence line holds exactly 80 characters from `ACGT`, the drawn ones |
| FastaGenerator.Generate | data/script_generate_fasta.py:13-24 | the text is records `>seq1`, `>seq2`, … with consecutive ids from 1, and `seq_size` is exactly its length. On exit `seq_size >= target`, and the text before the last record was under the target, so the overshoot is less than one record. A target of 0 or less writes nothing |
| FastaGenerator.FastaGrows | data/script_generate_fasta.py:23 | each record adds at least 86 bytes, so the size grows strictly with the number of records |
| FastaGenerator.FewestRecords | data/script_generate_fasta.py:16 | the loop stops at the fewest records whose size reaches the target |
| FastaGenerator.TargetOf200 | data/script_generate_fasta.py:16-23 | two 87-byte records make 174 bytes, so a target of 200 takes three records |
| FastaGenerator.FastaIsLines | data/script_generate_fasta.py:18-22 | the text is the header and sequence lines, each followed by a line break |
| FastaGenerator.FastaReadsBack | data/script_generate_fasta.py:18-22 | the pipeline's reader, given the generated lines, keeps exactly the drawn bases, `80 * records` of them, all from `ACGT` |

## Left out

- Threads, mutexes and condition variables: `Hasher::worker`'s waiting, the
  locks, `notify_all`, and `main` running the producer beside the workers.
  Their combined effect is a schedule of which worker pops each block, in
  queue order. The queue is modelled as already filled when the workers
  start, which gives the same table contents because pops follow pushes in
  order.
- File and console I/O: opening files and the error thrown when a file
  cannot be opened, `getline`, `read`, writing the generated files,
  `Hasher::writeResults`, and all progress printing. Readers take the file as
  lines or bytes, and writers return their text.
- `hash<32>`: it reads a string's memory as 64-bit words, always four of
  them, 32 bytes, whatever the key's length. For a key of 30 characters or
  fewer it reads past the terminator, so its result is not a function of
  the key alone. The hash is a parameter of the table, a function of the key
  and the probe number, so every property holds for any such function. That
  matches the source for the 31-character k-mers the pipeline inserts and
  for keys of 32 characters or more, not for shorter keys.
- Random sources (`mt19937_64`, `random.choices`): modelled as oracles that
  return the index of each drawn base.
- `size_t` and `int` widths: counts, `numElements` and lengths are unbounded.
  Wrap-around of a count after 2^64 increments is not modelled.
- `computeMinimizer` and `computeAllMinimizers` in `src/phase1.cpp`: not
  modelled. As written they do not return a value.
- The statistics at the end of `main` (the most frequent k-mer and the
  sample k-mers): not modelled, because they depend on the iteration order
  of `unordered_map`.
- `delete block`: the model has no deallocation.
- `Hasher`'s default arguments: the thread count defaults to
  `hardware_concurrency()`, an environment query. The constructor takes all
  its arguments explicitly.
- `Pipeline.ComputeMinimizer` requires `m <= |s|`. For `m = |s| + 1` the
  source's loop bound `seq.size() - m + 1` is 0, the loop does not run, and
  the clamped `substr(0, m)` returns `s` itself. For `m >= |s| + 2` the bound
  wraps around to a huge value and `substr` throws once `i` passes the end.
  Every caller passes a k-mer, whose length `k` is at least `m`.
- `Pipeline.ComputeAllMinimizers` requires `m <= k` when the string has a
  k-mer. With `m = k + 1` the source returns each k-mer as its own
  minimizer; with `m >= k + 2` it throws. `main` uses `m = 15` and `k = 31`.
- `Pipeline.GenerateKmers` and `Phase1.GenerateKmers` take `k` as a natural
  number. For a negative `k` the source converts `k` to `size_t` in the loop
  bound, the bound wraps around, and `substr` throws `out_of_range`. Every
  caller passes `k = 31` or the `k` of a super-mer.
- `Pipeline.SuperMerToKmers` takes `k` as a natural number too. For a
  negative `k` the source compares the length with `(size_t)k`, a huge value,
  and returns no k-mer, unlike `generateKmers`.
- `Pipeline.ComputeSuperMers` requires `m <= k` when the string has a k-mer,
  and `k >= 1`. `main` uses `m = 15` and `k = 31`.
- `Pipeline.FastReader.ReadFile` and `Phase1.FastReader.ReadFile` require
  `blockSize >= 1`. With 0 the source loops forever.
- `HashTable.QuadraticHashTable.Insert` requires `tableSize > 0`. The
  source's `% tableSize` is undefined for 0.
- `HashTable.QuadraticHashTable.Insert` of the empty string:
  - the source takes an empty probe slot for `""`, sets its value to 1 and
    increments `numElements`, while the key stays `""`;
  - the model does the same and tracks these inserts in the ghost counter
    `blanks`;
  - `exportToMap` skips such slots, so `""` is never counted;
  - such a slot is empty yet counts 1, so the table's invariant promises
    that empty slots count 0 only while no `""` has been inserted;
  - the pipeline never inserts `""`.
- Hashing.CountKmers: the failed inserts are a ghost list, because the
  source ignores `insert`'s result. The list is tied to the inserts that
  returned false: each listed k-mer is rejected by some worker's table at the
  end, every one of its probes holding another key. Exact counts are promised
  for every k-mer that no table rejects, and for all k-mers when the list is
  empty; the model does not bound how many inserts fail.
- Hashing.RunWorkers: the workers are assumed to run until the queue is
  empty. As written, the lambdas in `main` (`src/pipeline.cpp:228-255`) use
  `Hasher`'s private `threadTables` and `workComplete`, and wait on `main`'s
  own condition variable. `Hasher::signalComplete` notifies `Hasher`'s
  private one instead (`src/Hasher.cpp:53-59`). So a worker that waits on an
  empty queue before completion is signalled is never woken, and `join` can
  hang. The model does not capture this: it drains the queue and stops.
