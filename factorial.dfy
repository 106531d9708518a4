/**
 * Sequential and fork-join factorial (src/Factorial.java).
 *
 * The parallel version splits [2..n] into contiguous chunks of width
 * step = n / t + 1, lets worker k multiply chunk k into slot k, and multiplies
 * the slots in index order. Every worker writes only its own slot, so the
 * workers are run here one after another in index order.
 */
module Factorial {
  import opened Wrappers
  import opened ThreadPolicy
  import DivMod

  // ---------------------------------------------------------------------------
  // Reference definitions
  // ---------------------------------------------------------------------------

  /** n!, the reference the sequential and parallel results are compared with. */
  function Fact(n: nat): (r: nat)
  {
    if n == 0 then 1 else n * Fact(n - 1)
  }

  /** lo * (lo + 1) * ... * hi; 1 for an empty range. */
  function Product(lo: int, hi: int): (r: int)
    decreases hi - lo
  {
    if hi < lo then 1 else Product(lo, hi - 1) * hi
  }

  lemma {:induction false} ProductSplit(lo: int, mid: int, hi: int)
    requires lo - 1 <= mid <= hi
    ensures Product(lo, mid) * Product(mid + 1, hi) == Product(lo, hi)
    decreases hi - mid
  {
    if mid < hi {
      ProductSplit(lo, mid, hi - 1);
      var a, b, c := Product(lo, mid), Product(mid + 1, hi - 1), Product(lo, hi - 1);
      assert Product(mid + 1, hi) == b * hi;
      assert Product(lo, hi) == c * hi;
      DivMod.MulAssoc(a, b, hi);
    }
  }

  lemma {:induction false} ProductFromTwoIsFact(n: nat)
    ensures Product(2, n) == Fact(n)
  {
    if n >= 2 {
      ProductFromTwoIsFact(n - 1);
    }
  }

  lemma {:induction false} ProductAtLeast(lo: int, hi: int)
    requires 1 <= lo <= hi
    ensures Product(lo, hi) >= hi
    decreases hi - lo
  {
    if lo < hi {
      ProductAtLeast(lo, hi - 1);
      DivMod.MulMonotone(1, Product(lo, hi - 1), hi);
    }
  }

  // ---------------------------------------------------------------------------
  // Sequential factorial (src/Factorial.java:11-23)
  // ---------------------------------------------------------------------------

  method FacSequential(n: int) returns (r: Result<int>)
    ensures n < 0 ==> r == Err(IllegalArgument)
    ensures n >= 0 ==> r == Ok(Fact(n))
  {
    var res := 1;
    if n < 0 {
      return Err(IllegalArgument);
    }
    if n == 0 {
      return Ok(1);
    }
    var i := 2;
    while i <= n
      invariant 2 <= i <= n + 1
      invariant res == Fact(i - 1)
    {
      res := res * i;
      i := i + 1;
    }
    return Ok(res);
  }

  // ---------------------------------------------------------------------------
  // Partition geometry of [2..n] (src/Factorial.java:41-43, :64)
  // ---------------------------------------------------------------------------

  /** The chunk width: one more than n / t, so t chunks always reach past n. */
  function Step(n: int, t: int): (step: int)
    requires n >= 0 && t >= 1
    ensures step >= 1 && step * t > n
  {
    n / t + 1
  }

  /** First number of chunk k: the loop variable i after k advances. */
  function ChunkFirst(step: int, k: int): (first: int)
  {
    2 + k * step
  }

  /** Last number of chunk k, cut at n. */
  function ChunkLast(n: int, step: int, k: int): (last: int)
  {
    Min(ChunkFirst(step, k) + step - 1, n)
  }

  /** Number of chunks the partition loop produces: ceil((n - 1) / step). */
  function ChunkCount(n: int, step: int): (count: nat)
    requires step >= 1
  {
    if n < 2 then 0 else (n - 2) / step + 1
  }

  /** The partition loop runs chunk k exactly when k is below the chunk count. */
  lemma ChunkStartsWithinRange(n: int, step: int, k: int)
    requires n >= 2 && step >= 1 && k >= 0
    ensures ChunkFirst(step, k) <= n <==> k < ChunkCount(n, step)
  {
    DivMod.MulLeIffLeDiv(k, step, n - 2);
  }

  /** The chunks are non-empty, start at 2, follow each other without gap, and the last ends at n. */
  lemma ChunkGeometry(n: int, step: int, k: nat)
    requires n >= 2 && step >= 1 && k < ChunkCount(n, step)
    ensures ChunkFirst(step, k) <= ChunkLast(n, step, k)
    ensures k == 0 ==> ChunkFirst(step, k) == 2
    ensures k + 1 < ChunkCount(n, step) ==> ChunkFirst(step, k + 1) == ChunkLast(n, step, k) + 1
    ensures k + 1 == ChunkCount(n, step) ==> ChunkLast(n, step, k) == n
  {
    ChunkStartsWithinRange(n, step, k);
    ChunkStartsWithinRange(n, step, k + 1);
    assert ChunkFirst(step, k + 1) == ChunkFirst(step, k) + step;
  }

  /** The chunk that holds m: every number of [2..n] is in some chunk. */
  function ChunkOf(n: int, step: int, m: int): (k: nat)
    requires step >= 1 && 2 <= m <= n
    ensures k < ChunkCount(n, step)
    ensures ChunkFirst(step, k) <= m <= ChunkLast(n, step, k)
  {
    var k := (m - 2) / step;
    DivMod.MulLeIffLeDiv(k + 1, step, m - 2);
    ChunkStartsWithinRange(n, step, k);
    assert (k + 1) * step == k * step + step;
    k
  }

  /** No number of [2..n] is in two chunks. */
  lemma ChunksDisjoint(n: int, step: int, m: int, k: nat)
    requires step >= 1 && 2 <= m <= n && k < ChunkCount(n, step)
    requires ChunkFirst(step, k) <= m <= ChunkLast(n, step, k)
    ensures k == ChunkOf(n, step, m)
  {
    DivMod.DivOfRange(m - 2, step, k);
  }

  /** The loop never produces more chunks than there are slots. */
  lemma ChunkCountAtMostThreads(n: int, t: int)
    requires n >= 2 && t >= 1
    ensures 1 <= ChunkCount(n, Step(n, t)) <= t
  {
    DivMod.MulLeIffLeDiv(t, Step(n, t), n - 2);
  }

  /** With few enough workers (t * (t + 1) <= n) every slot gets a chunk. */
  lemma ChunkCountReachesThreads(n: int, t: int)
    requires t >= 1 && (t + 1) * t <= n
    ensures ChunkCount(n, Step(n, t)) == t
  {
    var q := n / t;
    var step := Step(n, t);
    DivMod.MulLeIffLeDiv(t + 1, t, n);
    assert t * q <= n;
    assert (t - 1) * step == t * q - q + t - 1;
    DivMod.MulLeIffLeDiv(t - 1, step, n - 2);
    ChunkCountAtMostThreads(n, t);
  }

  // ---------------------------------------------------------------------------
  // Slots (src/Factorial.java:41, :58-62)
  // ---------------------------------------------------------------------------

  /** The slot array after every worker has finished: chunk products, then unwritten slots. */
  function Slots(n: int, t: int): (slots: seq<Option<int>>)
    requires n >= 2 && t >= 1
  {
    var step := Step(n, t);
    seq(t, k requires 0 <= k < t =>
      if k < ChunkCount(n, step)
      then Some(Product(ChunkFirst(step, k), ChunkLast(n, step, k)))
      else None)
  }

  /** Slot k is unwritten exactly when k is past the chunk count; a written slot is at least 2. */
  lemma SlotsShape(n: int, t: int, k: int)
    requires n >= 2 && t >= 1 && 0 <= k < t
    ensures Slots(n, t)[k].None? <==> k >= ChunkCount(n, Step(n, t))
    ensures Slots(n, t)[k].Some? ==> Slots(n, t)[k].value >= 2
  {
    var step := Step(n, t);
    if k < ChunkCount(n, step) {
      ChunkGeometry(n, step, k);
      ProductAtLeast(ChunkFirst(step, k), ChunkLast(n, step, k));
    }
  }

  /**
   * The skip test of the combine loop (src/Factorial.java:77). The source
   * compares against the BigInteger.ZERO reference; BigInteger returns that
   * very constant for a zero product, and null is never it, so it matches a
   * slot exactly when the slot holds zero.
   */
  predicate IsZeroConstant(slot: Option<int>)
  {
    slot == Some(0)
  }

  /** Factor a slot contributes: skipped zero slots and unwritten slots contribute 1. */
  function SlotFactor(slot: Option<int>): (r: int)
  {
    match slot
    case None => 1
    case Some(v) => if IsZeroConstant(slot) then 1 else v
  }

  /** In-order product of the slot factors. */
  function SlotProduct(s: seq<Option<int>>): (r: int)
  {
    if |s| == 0 then 1 else SlotProduct(s[..|s| - 1]) * SlotFactor(s[|s| - 1])
  }

  /** Slot j carries the product from where the first j chunks stop to where chunk j stops. */
  lemma SlotExtendsPrefix(n: int, t: int, j: nat)
    requires n >= 2 && t >= 1 && j < t
    ensures Product(2, Min(1 + j * Step(n, t), n)) * SlotFactor(Slots(n, t)[j])
         == Product(2, Min(1 + (j + 1) * Step(n, t), n))
  {
    var step := Step(n, t);
    var first := ChunkFirst(step, j);
    DivMod.MulSucc(j, step);
    ChunkStartsWithinRange(n, step, j);
    SlotsShape(n, t, j);
    if j < ChunkCount(n, step) {
      ProductSplit(2, first - 1, ChunkLast(n, step, j));
    }
  }

  lemma {:induction false} SlotPrefixProduct(n: int, t: int, k: nat)
    requires n >= 2 && t >= 1 && k <= t
    ensures SlotProduct(Slots(n, t)[..k]) == Product(2, Min(1 + k * Step(n, t), n))
  {
    var s := Slots(n, t);
    if k > 0 {
      SlotPrefixProduct(n, t, k - 1);
      assert s[..k][..k - 1] == s[..k - 1];
      SlotExtendsPrefix(n, t, k - 1);
    }
  }

  /** The in-order product of the filled slots is n!, unwritten slots counting as 1. */
  lemma SlotProductIsFactorial(n: int, t: int)
    requires n >= 2 && t >= 1
    ensures SlotProduct(Slots(n, t)) == Fact(n)
  {
    var step := Step(n, t);
    SlotPrefixProduct(n, t, t);
    assert Slots(n, t)[..t] == Slots(n, t);
    ProductFromTwoIsFact(n);
  }

  // ---------------------------------------------------------------------------
  // Workers and combine (src/Factorial.java:42-84)
  // ---------------------------------------------------------------------------

  /** The body of one worker thread: the product of first..last (src/Factorial.java:58-61). */
  method RunFactorialWorker(first: int, last: int) returns (threadResult: int)
    requires first - 1 <= last
    ensures threadResult == Product(first, last)
  {
    threadResult := 1;
    var j := first;
    while j <= last
      invariant first <= j <= last + 1
      invariant threadResult == Product(first, j - 1)
    {
      threadResult := threadResult * j;
      j := j + 1;
    }
  }

  /**
   * The partition loop (src/Factorial.java:41-67): one worker per chunk,
   * worker threadIndex writing slot threadIndex once.
   */
  method RunChunkWorkers(n: int, t: int) returns (results: array<Option<int>>)
    requires n >= 2 && t >= 1
    ensures fresh(results)
    ensures results[..] == Slots(n, t)
  {
    results := new Option<int>[t](_ => None);
    ChunkCountAtMostThreads(n, t);
    var i, step, threadIndex := 2, n / t + 1, 0;
    while i <= n
      invariant step == Step(n, t)
      invariant 0 <= threadIndex <= ChunkCount(n, step)
      invariant i == ChunkFirst(step, threadIndex)
      invariant forall k :: 0 <= k < t ==> results[k] == if k < threadIndex then Slots(n, t)[k] else None
      decreases n - i
    {
      ChunkStartsWithinRange(n, step, threadIndex);
      ChunkGeometry(n, step, threadIndex);
      var threadResult := RunFactorialWorker(i, Min(i + step - 1, n));
      results[threadIndex] := Some(threadResult);
      assert ChunkFirst(step, threadIndex + 1) == i + step;
      i, threadIndex := i + step, threadIndex + 1;
    }
    ChunkStartsWithinRange(n, step, threadIndex);
    assert results[..] == Slots(n, t);
  }

  /**
   * The combine loop as written (src/Factorial.java:75-84): a slot equal to
   * the zero constant is skipped, an unwritten (null) slot makes the multiply
   * raise NullPointerException.
   */
  method CombineSlots(results: array<Option<int>>) returns (r: Result<int>)
    ensures (forall k :: 0 <= k < results.Length ==> results[k].Some?) ==> r == Ok(SlotProduct(results[..]))
    ensures (exists k :: 0 <= k < results.Length && results[k].None?) ==> r == Err(NullPointer)
  {
    var result := 1;
    for i := 0 to results.Length
      invariant forall k :: 0 <= k < i ==> results[k].Some?
      invariant result == SlotProduct(results[..i])
    {
      assert results[..i + 1][..i] == results[..i];
      if IsZeroConstant(results[i]) {
        continue;
      }
      if results[i].None? {
        return Err(NullPointer);
      }
      result := result * results[i].value;
    }
    assert results[..results.Length] == results[..];
    return Ok(result);
  }

  /** The combine with the unwritten slots skipped, as the zero test evidently meant. */
  method CombineSlotsSkippingUnwritten(results: array<Option<int>>) returns (result: int)
    ensures result == SlotProduct(results[..])
  {
    result := 1;
    for i := 0 to results.Length
      invariant result == SlotProduct(results[..i])
    {
      assert results[..i + 1][..i] == results[..i];
      if IsZeroConstant(results[i]) || results[i].None? {
        continue;
      }
      result := result * results[i].value;
    }
    assert results[..results.Length] == results[..];
  }

  // ---------------------------------------------------------------------------
  // Parallel factorial (src/Factorial.java:25-85)
  // ---------------------------------------------------------------------------

  /**
   * Whether the parallel factorial fills every slot: no partition is needed
   * (n <= 1 or the workload clamp gives one worker), or the chunk count
   * equals the effective worker count.
   */
  predicate AllSlotsWritten(n: int, threadCount: int, procs: int)
    requires n >= 0 && threadCount >= 1 && procs >= 1
  {
    n <= 1
    || SizeClamp(threadCount, n, 4) == 1
    || var t := EffectiveThreads(threadCount, n, 4, procs);
       ChunkCount(n, Step(n, t)) == t
  }

  method FacParallel(n: int, threadCount: int, procs: int) returns (r: Result<int>)
    requires procs >= 1
    ensures n < 0 || threadCount <= 0 ==> r == Err(IllegalArgument)
    ensures n >= 0 && threadCount >= 1 && n <= 1 ==> r == Ok(1)
    ensures n >= 2 && threadCount >= 1 && SizeClamp(threadCount, n, 4) == 1 ==> r == Ok(Fact(n))
    ensures n >= 0 && threadCount >= 1 && AllSlotsWritten(n, threadCount, procs) ==> r == Ok(Fact(n))
    ensures n >= 0 && threadCount >= 1 && !AllSlotsWritten(n, threadCount, procs) ==> r == Err(NullPointer)
  {
    if n < 0 || threadCount <= 0 {
      return Err(IllegalArgument);
    }
    if n == 0 || n == 1 {
      return Ok(1);
    }
    var t := threadCount;
    if t > n / 4 {
      t := Max(n / 4, 1);
    }
    if t == 1 {
      r := FacSequential(n);
      return;
    }
    t := Min(t, procs);
    var results := RunChunkWorkers(n, t);
    r := CombineSlots(results);
    SlotProductIsFactorial(n, t);
    var count := ChunkCount(n, Step(n, t));
    ChunkCountAtMostThreads(n, t);
    if count < t {
      SlotsShape(n, t, t - 1);
      assert results[t - 1].None?;
    } else {
      forall k | 0 <= k < t ensures results[k].Some? {
        SlotsShape(n, t, k);
      }
    }
  }

  /** The parallel factorial with the combine skipping unwritten slots: always n!. */
  method FacParallelSkippingUnwritten(n: int, threadCount: int, procs: int) returns (r: Result<int>)
    requires procs >= 1
    ensures n < 0 || threadCount <= 0 ==> r == Err(IllegalArgument)
    ensures n >= 0 && threadCount >= 1 ==> r == Ok(Fact(n))
  {
    if n < 0 || threadCount <= 0 {
      return Err(IllegalArgument);
    }
    if n == 0 || n == 1 {
      return Ok(1);
    }
    var t := threadCount;
    if t > n / 4 {
      t := Max(n / 4, 1);
    }
    if t == 1 {
      r := FacSequential(n);
      return;
    }
    t := Min(t, procs);
    var results := RunChunkWorkers(n, t);
    var product := CombineSlotsSkippingUnwritten(results);
    SlotProductIsFactorial(n, t);
    return Ok(product);
  }

  // ---------------------------------------------------------------------------
  // The benchmark cases (src/Factorial.java:107-165)
  // ---------------------------------------------------------------------------

  /** Every slot is written when the effective worker count t satisfies t * (t + 1) <= n. */
  lemma FewWorkersFillAllSlots(n: int, threadCount: int, procs: int)
    requires n >= 2 && threadCount >= 1 && procs >= 1
    requires var t := EffectiveThreads(threadCount, n, 4, procs); t * (t + 1) <= n
    ensures AllSlotsWritten(n, threadCount, procs)
  {
    var t := EffectiveThreads(threadCount, n, 4, procs);
    assert (t + 1) * t == t * (t + 1);
    ChunkCountReachesThreads(n, t);
  }

  /** The same for any bound on min(threadCount, procs) with bound * (bound + 1) <= n. */
  lemma BoundedWorkersFillAllSlots(n: int, threadCount: int, procs: int, bound: int)
    requires n >= 2 && threadCount >= 1 && procs >= 1 && bound >= 1
    requires Min(threadCount, procs) <= bound && (bound + 1) * bound <= n
    ensures AllSlotsWritten(n, threadCount, procs)
  {
    var t := EffectiveThreads(threadCount, n, 4, procs);
    DivMod.MulMonotone(t, bound, t + 1);
    DivMod.MulMonotone(t + 1, bound + 1, bound);
    assert t * (t + 1) == (t + 1) * t;
    FewWorkersFillAllSlots(n, threadCount, procs);
  }

  /**
   * The benchmark's (n, threadCount) pairs fill every slot on any machine,
   * so facParallel agrees with facSequential there; (100000, 400) does so
   * on machines with at most 315 processors.
   */
  lemma BenchmarkCasesFillAllSlots(procs: int)
    requires procs >= 1
    ensures AllSlotsWritten(5, 2, procs) && AllSlotsWritten(10, 2, procs)
    ensures AllSlotsWritten(106, 2, procs) && AllSlotsWritten(1060, 2, procs)
    ensures AllSlotsWritten(40000, 2, procs) && AllSlotsWritten(40000, 4, procs)
    ensures AllSlotsWritten(40000, 8, procs)
    ensures AllSlotsWritten(100000, 2, procs) && AllSlotsWritten(100000, 4, procs)
    ensures procs <= 315 ==> AllSlotsWritten(100000, 400, procs)
  {
    BoundedWorkersFillAllSlots(10, 2, procs, 2);
    BoundedWorkersFillAllSlots(106, 2, procs, 2);
    BoundedWorkersFillAllSlots(1060, 2, procs, 2);
    BoundedWorkersFillAllSlots(40000, 2, procs, 2);
    BoundedWorkersFillAllSlots(40000, 4, procs, 4);
    BoundedWorkersFillAllSlots(40000, 8, procs, 8);
    BoundedWorkersFillAllSlots(100000, 2, procs, 2);
    BoundedWorkersFillAllSlots(100000, 4, procs, 4);
    if procs <= 315 {
      BoundedWorkersFillAllSlots(100000, 400, procs, 315);
    }
  }

  /** n = 16, threadCount = 4 on four or more processors: step 5 gives three chunks, slot 3 stays null. */
  lemma SixteenByFourLeavesSlotUnwritten(procs: int)
    requires procs >= 4
    ensures EffectiveThreads(4, 16, 4, procs) == 4 && ChunkCount(16, Step(16, 4)) == 3
    ensures !AllSlotsWritten(16, 4, procs)
  {
  }

  /** The benchmark pair (100000, 400) on 400 processors: step 251 gives 399 chunks. */
  lemma FourHundredWorkersLeaveSlotUnwritten()
    ensures ChunkCount(100000, Step(100000, 400)) == 399
    ensures !AllSlotsWritten(100000, 400, 400)
  {
  }
}
