# Fork-join factorial, elementwise map and reduce

A Dafny model of a small fork-join engine written in Java. It models two classes. `Factorial` offers a sequential factorial and a parallel factorial that multiplies contiguous chunks of `[2..n]` into one slot per worker. `ParallelCompute` offers an elementwise map, where worker `i` handles the indices `i, i+t, i+2t, …`, and a reduce, where worker `i` folds a contiguous range into its own slot. Each parallel operation validates its arguments, then clamps the worker count twice: once against the workload size, once against the processor count. Between the two clamps, the factorial falls back to the sequential version when the first clamp leaves one worker (src/Factorial.java:35-37). It then partitions the work, runs the workers, and combines the slots in worker order.

Every worker writes only slots it owns and reads only the input arrays. The model therefore runs the workers one after another in index order, each as a method with its own loop. Java `BigInteger` values are Dafny `int`. The processor count is a parameter `procs >= 1`. The user's functions and operators are arbitrary total Dafny functions. A Java array slot that still holds `null` is `None` in an `array<Option<int>>`. A thrown `IllegalArgumentException` or `NullPointerException` is an `Err` result.

Files:
- `wrappers.dfy`: `Option`, `Result` and the two exceptions.
- `divmod.dfy`: helper facts about multiplication and Euclidean division.
- `thread_policy.dfy`: the two clamps on the worker count.
- `factorial.dfy`: `facSequential` and `facParallel`.
- `parallel_compute.dfy`: `parallelComputeFunctions` and `parallelReduceArray`.

The factorial, as written, fails for some inputs. The partition loop can produce fewer chunks than there are slots, for example when n = 16 with 4 workers. A trailing slot then stays `null`. The zero test in the combine loop compares references against `BigInteger.ZERO`, so it never skips that slot, and the multiply throws `NullPointerException`. The model reproduces this: `FacParallel` returns `Err(NullPointer)` exactly when `AllSlotsWritten` is false. The benchmark's `RegularTest` (src/Factorial.java:90-97) compares `facParallel` with `facSequential`, so the result is meant to be n! for every input. The code does not deliver that, and the model follows the code. The intended behaviour is modelled separately as `FacParallelSkippingUnwritten`.

The reduce, as written, seeds slot `i` with `data[i]`, not with the first element of its own range `data[i*step]`. It then folds `data[i*step+1 .. end)` into that slot. The benchmark's `ReduceRegularTest` (src/ParallelCompute.java:117-124) compares the reduce with the sequential fold of `data`, so each worker is meant to start from its range's first element. The code does not, and the model follows the code. For an associative operator, `ParallelReduceArray` is proved to equal the sequential reduce of `Seeded(data, t)`: the data with position `i*step` replaced by `data[i]` for every worker `i`. The intended seeding is modelled separately as `ParallelReduceArraySeededByRange`.

## Model

| member | source | states |
|---|---|---|
| `Factorial.FacSequential` | src/Factorial.java:11-23 | IllegalArgument for n < 0; otherwise n! (so 1 for n = 0 and, through the empty loop, for n = 1) |
| `Factorial.ProductFromTwoIsFact` | src/Factorial.java:19-21 | the running product 2·3·…·n equals n! for every n ≥ 0 |
| `Factorial.ProductSplit` | src/Factorial.java:58-62 | the product over lo..hi is the product over lo..mid times the product over mid+1..hi, for any split point |
| `Factorial.ProductAtLeast` | src/Factorial.java:58-61 | the product of a non-empty range of positive numbers is at least its last number |
| `Factorial.Step` | src/Factorial.java:42 | the chunk width n/t + 1 is at least 1, and t chunks of that width reach past n |
| `Factorial.ChunkStartsWithinRange` | src/Factorial.java:42-43 | the loop starts chunk k (i = 2 + k·step ≤ n) exactly when k < ceil((n-1)/step) |
| `Factorial.ChunkGeometry` | src/Factorial.java:42-64 | each chunk [i, min(i+step-1, n)] is non-empty; the first starts at 2; each next chunk starts right after the previous one ends; the last ends at n |
| `Factorial.ChunkOf` | src/Factorial.java:42-64 | every number of [2..n] lies in some chunk below the chunk count |
| `Factorial.ChunksDisjoint` | src/Factorial.java:42-64 | a number of [2..n] lies in only one chunk |
| `Factorial.ChunkCountAtMostThreads` | src/Factorial.java:41-43 | between 1 and t chunks, so threadIndex always stays below results.length |
| `Factorial.ChunkCountReachesThreads` | src/Factorial.java:41-43 | if t·(t+1) ≤ n, the loop produces exactly t chunks |
| `Factorial.SlotsShape` | src/Factorial.java:41-62 | after the workers run, slot k is still null exactly when k is at or past the chunk count; a written slot holds at least 2, so it is never the zero constant |
| `Factorial.SlotProductIsFactorial` | src/Factorial.java:75-84 | the in-order product of the slots, with unwritten slots counting as 1, is n! |
| `Factorial.RunFactorialWorker` | src/Factorial.java:57-63 | a worker's result is the product first·…·last of its chunk |
| `Factorial.RunChunkWorkers` | src/Factorial.java:40-67 | a fresh slot array of length t; slot k holds the product of chunk k for k below the chunk count and stays null after that |
| `Factorial.CombineSlots` | src/Factorial.java:75-84 | NullPointer if any slot is null; otherwise the in-order product of the slots, skipping any slot equal to zero |
| `Factorial.CombineSlotsSkippingUnwritten` | src/Factorial.java:75-84 | the in-order product of the slots, skipping null slots and zero slots |
| `Factorial.FacParallel` | src/Factorial.java:25-85 | IllegalArgument for n < 0 or threadCount ≤ 0; 1 for n ∈ {0,1}; n! when the workload clamp gives one worker; otherwise n! if every slot is written and NullPointer if one is not |
| `Factorial.FacParallelSkippingUnwritten` | src/Factorial.java:25-85 | IllegalArgument for n < 0 or threadCount ≤ 0; n! for every other input |
| `Factorial.FewWorkersFillAllSlots` | src/Factorial.java:32-43 | every slot is written when the effective worker count t satisfies t·(t+1) ≤ n |
| `Factorial.BoundedWorkersFillAllSlots` | src/Factorial.java:32-43 | every slot is written when some bound b ≥ min(threadCount, procs) satisfies b·(b+1) ≤ n |
| `Factorial.BenchmarkCasesFillAllSlots` | src/Factorial.java:107-165 | for every benchmark pair (n, threadCount), every slot is written on any machine, so facParallel equals facSequential; for (100000, 400) this holds on machines with at most 315 processors |
| `Factorial.SixteenByFourLeavesSlotUnwritten` | src/Factorial.java:41-81 | n = 16 with 4 workers and at least 4 processors: the effective count is 4, step 5 gives 3 chunks, and the fourth slot stays null |
| `Factorial.FourHundredWorkersLeaveSlotUnwritten` | src/Factorial.java:161-165 | benchmark pair (100000, 400) on 400 processors: step 251 gives 399 chunks, so one slot stays null |
| `ThreadPolicy.SizeClamp` | src/Factorial.java:32-34 | the workload clamp equals min(requested, max(size/divisor, 1)), and keeps the request when the request is within size/divisor |
| `ThreadPolicy.EffectiveThreads` | src/ParallelCompute.java:22-25 | the clamped count t equals min(requested, max(size/divisor, 1), procs); so 1 ≤ t ≤ each bound, and t ≤ size for a non-empty workload |
| `ParallelCompute.StrideMembers` | src/ParallelCompute.java:43 | worker i (i < t) visits exactly the indices j in [0, len) with j mod t = i |
| `ParallelCompute.StridesPartitionIndices` | src/ParallelCompute.java:29-47 | every index in [0, len) is visited by exactly one worker, the worker numbered j mod t |
| `ParallelCompute.RunMapWorker` | src/ParallelCompute.java:42-46 | after worker i runs, results[j] = functions[j](data[j]) on its stride and every other slot is unchanged |
| `ParallelCompute.ParallelComputeFunctions` | src/ParallelCompute.java:14-57 | NullPointer for null data or functions; IllegalArgument for empty arrays, mismatched lengths or threadCount ≤ 0; otherwise a fresh array of data's length with result[j] = functions[j](data[j]) for every j, whatever the worker count (so the pre-seed is always overwritten) |
| `ParallelCompute.FoldLeftConcat` | src/ParallelCompute.java:93-94 | folding x + y from the left is folding x, then continuing with y |
| `ParallelCompute.Fold1Concat` | src/ParallelCompute.java:108-111 | for an associative operator, reducing x + y is combining the reductions of x and y |
| `ParallelCompute.ReduceChunkGeometry` | src/ParallelCompute.java:88-93 | step = len/t ≥ 1; worker i's range [i·step, end) lies in [0, len) and holds at least step indices; the first range starts at 0; each range ends where the next starts |
| `ParallelCompute.ReduceOwner` | src/ParallelCompute.java:88-93 | every index of [0, len) lies in some worker's range |
| `ParallelCompute.ReduceRangesDisjoint` | src/ParallelCompute.java:88-93 | no index lies in two workers' ranges |
| `ParallelCompute.ChunkedFoldIsFold` | src/ParallelCompute.java:108-111 | for an associative operator, reducing each range and combining the results in worker order equals the sequential reduce |
| `ParallelCompute.SeededChunk` | src/ParallelCompute.java:75-94 | worker i's range of Seeded(data, t) is data[i] followed by the rest of worker i's range of data |
| `ParallelCompute.WorkerSlotsAreSeededChunkFolds` | src/ParallelCompute.java:74-100 | the slots the workers leave are exactly the per-range reductions of Seeded(data, t) |
| `ParallelCompute.AsWrittenReduceIsSeededFold` | src/ParallelCompute.java:75-111 | for an associative operator, combining the slots in order equals the sequential reduce of data with position i·step replaced by data[i] for every worker i |
| `ParallelCompute.SeededUnchanged` | src/ParallelCompute.java:75 | the seeding changes nothing when data[i] = data[i·step] for every worker i |
| `ParallelCompute.SeededSingleWorker` | src/ParallelCompute.java:67-75 | with one worker the seeding changes nothing |
| `ParallelCompute.RunReduceWorker` | src/ParallelCompute.java:87-95 | slot i becomes its seed folded with data[i·step+1 .. end); every other slot is unchanged |
| `ParallelCompute.CombineReduceSlots` | src/ParallelCompute.java:108-111 | the result is results[0] folded with results[1..] from the left |
| `ParallelCompute.ParallelReduceArray` | src/ParallelCompute.java:59-113 | NullPointer for null data or operator; IllegalArgument for empty data or threadCount ≤ 0; otherwise the in-order fold of the slots; for an associative operator, the sequential reduce of Seeded(data, t) |
| `ParallelCompute.ParallelReduceArraySeededByRange` | src/ParallelCompute.java:59-113 | the same errors; for an associative operator, the sequential reduce of data itself |
| `ParallelCompute.ReduceThreadBounds` | src/ParallelCompute.java:67-70 | 1 ≤ t ≤ min(threadCount, max(len/2, 1), procs), t ≤ len, and step = len/t ≥ 1 |
| `ParallelCompute.ReduceTestsAgreeWithSequential` | src/ParallelCompute.java:132-164 | max and multiply are associative; for the ten test values and at most two workers the seeding changes nothing (data[1] = data[5]), so both tests match the sequential fold on any machine |
| `ParallelCompute.SeedingDefectExample` | src/ParallelCompute.java:75-94 | summing [0, 1, 0, 0] with two workers gives slots [1, 1] and result 2, where the sequential sum is 1 |

## Left out

- Thread creation, `start`, and the `isAlive`/`join` loops: the workers run one after another in index order. Every worker writes only its own slots and reads only the inputs, so any interleaving gives the same arrays.
- `Runtime.availableProcessors()`: a platform query. It is the parameter `procs`, required to be at least 1.
- The benchmark and print harness (`RegularTest`, `ReduceRegularTest`, `ComputeRegularTest`, the `Test*` methods, `main`, timing, `printf`): I/O and timing only. Their concrete cases appear only as the lemmas `BenchmarkCasesFillAllSlots`, `FourHundredWorkersLeaveSlotUnwritten` and `ReduceTestsAgreeWithSequential`. `ComputeTest01` (src/ParallelCompute.java:188-205) has no lemma of its own. Its outcome, `functions[j](data[j])` at every index, is the general ensures of `ParallelComputeFunctions`.
- The concrete lambdas and the `maxBy` comparator, whose reference test `a == b` can only change which of two equal values is returned. User functions are arbitrary total `int -> int` and `(int, int) -> int` functions. The tests' operators are `MaxOp` (on values) and `Multiply`.
- Null elements inside `functions`, and a user function or operator that throws: the elements and `binOp` are total Dafny functions. A throwing element of `functions` fails inside a worker thread. `binOp` is also applied in two places. In a reduce worker (src/ParallelCompute.java:94), an exception is lost and the slot keeps the partial fold. In the caller's combine loop (:110), it reaches the caller of `parallelReduceArray`.
- Java 32-bit `int` overflow: all integers are unbounded. The expressions that can wrap are `n / threadCount + 1` (src/Factorial.java:42), `i += step` (:43), `i + step - 1` (:64), the counters `i++` (:19) and `j++` (:59) and `j += step` (src/ParallelCompute.java:43). The reduce's bounds `(index + 1) * step` (:89) and `index * step + 1` (:93) cannot wrap: with `index < threadCount` and `step = data.length / threadCount`, both stay within `data.length`, as `ReduceChunkGeometry` states. With n = Integer.MAX_VALUE, `n / threadCount + 1` at :42 wraps to a negative step when the processor clamp leaves one worker. The partition loop at src/Factorial.java:42-43 then need not end. With n = Integer.MAX_VALUE and two workers, step is 2^30, and `i` cycles through 2, 2^30+2, −2^31+2, −2^30+2 while staying ≤ n. Each pass starts another worker, and `threadIndex` runs past `results.length`. `RunChunkWorkers` ends through `decreases n - i`, which holds only because Dafny integers do not wrap. For n near Integer.MAX_VALUE, `i + step - 1` at :64 wraps, so a chunk's upper bound comes out negative and that worker's loop at :59 does not run. The counter at :19 does not wrap in practice: `BigInteger`'s limit (next line) stops that loop long before.
- `BigInteger`'s finite range: it throws `ArithmeticException` past 2^Integer.MAX_VALUE; Dafny `int` has no bound.
- Null elements of `data`: the elements are Dafny `int` values, never null. In Java a null element would reach the user function or `binOp`.
- `IsZeroConstant`: models the reference test `== BigInteger.ZERO` (src/Factorial.java:77) as value equality with zero. That is exact for every slot the combine loop sees, because a slot is either null, which never equals the constant, or a product of at least 2, which is neither zero nor that constant object.
- `InterruptedException` from `join`: part of the thread machinery left out above.
- That no array is allocated before validation: the methods validate first, but allocation order is not stated in any contract.

## Findings

| source | as written | input that shows it | evidently intended | confidence | as-written member | corrected member |
|---|---|---|---|---|---|---|
| src/Factorial.java:76-81 | The combine loop skips a slot only if it is the `BigInteger.ZERO` reference. A slot the partition loop never reached is still `null`, so `result.multiply(null)` throws NullPointerException. | n = 16, threadCount = 4, at least 4 processors: step 5 gives chunks [2..6], [7..11], [12..16], and slot 3 stays null. The benchmark pair (100000, 400) on 400 processors gives 399 chunks for 400 slots. | Unwritten slots are skipped as the multiplicative identity, and the result is n! | not executed | `Factorial.FacParallel` with `Factorial.SixteenByFourLeavesSlotUnwritten` | `Factorial.FacParallelSkippingUnwritten` |
| src/ParallelCompute.java:75 | Slot i is seeded with `data[i]`, but the worker then folds `data[i*step+1 .. end)`. The first element of its own range, `data[i*step]`, is dropped and `data[i]` is used in its place. | data = [0, 1, 0, 0], addition, threadCount = 2, at least 2 processors: the result is 2, but the sum is 1. | Slot i is seeded with `data[i*step]`, and the result is the sequential reduce for every associative operator. | not executed | `ParallelCompute.ParallelReduceArray` with `ParallelCompute.SeedingDefectExample` | `ParallelCompute.ParallelReduceArraySeededByRange` |
