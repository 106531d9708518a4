/**
 * Fork-join elementwise map and reduce (src/ParallelCompute.java).
 *
 * The map gives worker i the indices i, i + t, i + 2t, ... and writes each
 * result into its own index of a fresh array. The reduce gives worker i the
 * contiguous range [i * step, end) with step = len / t, folds it into slot i,
 * and folds the slots in index order. No two workers share an output slot,
 * so the workers are run here one after another in index order.
 */
module ParallelCompute {
  import opened Wrappers
  import opened ThreadPolicy
  import DivMod

  // ===========================================================================
  // Elementwise map (src/ParallelCompute.java:14-57)
  // ===========================================================================

  /** The indices worker i visits: i, i + t, i + 2t, ... below len (src/ParallelCompute.java:43). */
  function Stride(i: nat, t: nat, len: nat): (js: seq<nat>)
    requires t >= 1
    decreases len - i
  {
    if i >= len then [] else [i] + Stride(i + t, t, len)
  }

  lemma {:induction false} StrideFromMembers(i: nat, t: nat, len: nat, j: int)
    requires t >= 1
    ensures j in Stride(i, t, len) <==> i <= j < len && (j - i) % t == 0
    decreases len - i
  {
    if i < len {
      StrideFromMembers(i + t, t, len, j);
      DivMod.ModAddDivisor(j - i - t, t);
      if i < j < i + t {
        DivMod.ModDiffersWithinStride(i, j, t);
        assert i % t == (i - i) % t + i % t;
        DivMod.ModDiffersWithinStride(0, j - i, t);
      }
    }
  }

  /** Worker i (i < t) visits exactly the indices j below len with j mod t == i. */
  lemma StrideMembers(i: nat, t: nat, len: nat, j: int)
    requires 1 <= t && i < t
    ensures j in Stride(i, t, len) <==> 0 <= j < len && j % t == i
  {
    StrideFromMembers(i, t, len, j);
    if 0 <= j {
      DivMod.RemainderOffset(j, i, t);
    }
  }

  /** Every index is visited by exactly one worker, the one numbered j mod t. */
  lemma StridesPartitionIndices(t: nat, len: nat, j: int)
    requires 1 <= t && 0 <= j < len
    ensures j % t < t && j in Stride(j % t, t, len)
    ensures forall i: nat :: i < t && j in Stride(i, t, len) ==> i == j % t
  {
    StrideMembers(j % t, t, len, j);
    forall i: nat | i < t && j in Stride(i, t, len) ensures i == j % t {
      StrideMembers(i, t, len, j);
    }
  }

  /** Moving the bound of a stride past its next member j adds exactly j. */
  lemma StrideExtend(i: nat, t: nat, j: nat, k: int)
    requires t >= 1 && i <= j && (j - i) % t == 0
    ensures k in Stride(i, t, j + t) <==> k in Stride(i, t, j) || k == j
    ensures (j + t - i) % t == 0
  {
    StrideFromMembers(i, t, j + t, k);
    StrideFromMembers(i, t, j, k);
    DivMod.ModAddDivisor(j - i, t);
    if j < k < j + t {
      DivMod.ModDiffersWithinStride(j - i, k - i, t);
    }
  }

  /** A bound past len does not change which indices below len are on a stride. */
  lemma StrideBeyond(i: nat, t: nat, len: nat, bound: nat, k: int)
    requires t >= 1 && len <= bound && k < len
    ensures k in Stride(i, t, len) <==> k in Stride(i, t, bound)
  {
    StrideFromMembers(i, t, len, k);
    StrideFromMembers(i, t, bound, k);
  }

  /** The body of map worker index, striding by step (src/ParallelCompute.java:42-46). */
  method RunMapWorker(data: array<int>, functions: array<int -> int>, results: array<int>, index: nat, step: nat)
    requires data.Length == functions.Length == results.Length
    requires index < step
    requires results != data
    modifies results
    ensures forall j :: 0 <= j < results.Length ==>
      results[j] == if j in Stride(index, step, results.Length) then functions[j](data[j]) else old(results[j])
  {
    var j: nat := index;
    assert (j - index) % step == 0;
    while j < data.Length
      invariant index <= j && (j - index) % step == 0
      invariant forall k :: 0 <= k < results.Length && k in Stride(index, step, j) ==> results[k] == functions[k](data[k])
      invariant forall k :: 0 <= k < results.Length && k !in Stride(index, step, j) ==> results[k] == old(results[k])
      decreases data.Length - j
    {
      results[j] := functions[j](data[j]);
      forall k | 0 <= k < results.Length
        ensures k in Stride(index, step, j + step) <==> k in Stride(index, step, j) || k == j
      {
        StrideExtend(index, step, j, k);
      }
      StrideExtend(index, step, j, j);
      j := j + step;
    }
    forall k | 0 <= k < results.Length
      ensures k in Stride(index, step, results.Length) <==> k in Stride(index, step, j)
    {
      StrideBeyond(index, step, results.Length, j, k);
    }
  }

  method ParallelComputeFunctions(data: array?<int>, functions: array?<int -> int>, threadCount: int, procs: int)
    returns (r: Result<array<int>>)
    requires procs >= 1
    ensures data == null || functions == null ==> r == Err(NullPointer)
    ensures data != null && functions != null
      && (data.Length == 0 || functions.Length == 0 || data.Length != functions.Length || threadCount <= 0)
      ==> r == Err(IllegalArgument)
    ensures data != null && functions != null
      && data.Length > 0 && data.Length == functions.Length && threadCount > 0
      ==> (r.Ok? && fresh(r.value) && r.value.Length == data.Length
           && forall j :: 0 <= j < data.Length ==> r.value[j] == functions[j](data[j]))
  {
    if data == null || functions == null {
      return Err(NullPointer);
    }
    if data.Length == 0 || functions.Length == 0 || data.Length != functions.Length || threadCount <= 0 {
      return Err(IllegalArgument);
    }
    var t := threadCount;
    if t > data.Length / 4 {
      t := Max(data.Length / 4, 1);
    }
    t := Min(t, procs);
    assert t == EffectiveThreads(threadCount, data.Length, 4, procs);
    var results := new int[data.Length];
    for i := 0 to t
      invariant forall j :: 0 <= j < data.Length && j % t < i ==> results[j] == functions[j](data[j])
    {
      results[i] := data[i];
      RunMapWorker(data, functions, results, i, t);
      forall j | 0 <= j < data.Length ensures j in Stride(i, t, data.Length) <==> j % t == i {
        StrideMembers(i, t, data.Length, j);
      }
    }
    return Ok(results);
  }

  // ===========================================================================
  // Left folds
  // ===========================================================================

  /** acc folded with s from the left: the shape of every loop in the reduce. */
  function FoldLeft(f: (int, int) -> int, acc: int, s: seq<int>): (r: int)
    decreases |s|
  {
    if |s| == 0 then acc else FoldLeft(f, f(acc, s[0]), s[1..])
  }

  /** The sequential reduce: the first element folded with the rest (src/ParallelCompute.java:117-120). */
  function Fold1(f: (int, int) -> int, s: seq<int>): (r: int)
    requires |s| >= 1
  {
    FoldLeft(f, s[0], s[1..])
  }

  ghost predicate Associative(f: (int, int) -> int)
  {
    forall a, b, c :: f(f(a, b), c) == f(a, f(b, c))
  }

  lemma AssociativeAt(f: (int, int) -> int, a: int, b: int, c: int)
    requires Associative(f)
    ensures f(f(a, b), c) == f(a, f(b, c))
  {
  }

  lemma {:induction false} FoldLeftConcat(f: (int, int) -> int, acc: int, x: seq<int>, y: seq<int>)
    ensures FoldLeft(f, acc, x + y) == FoldLeft(f, FoldLeft(f, acc, x), y)
    decreases |x|
  {
    if |x| > 0 {
      assert (x + y)[0] == x[0] && (x + y)[1..] == x[1..] + y;
      FoldLeftConcat(f, f(acc, x[0]), x[1..], y);
    } else {
      assert x + y == y;
    }
  }

  lemma FoldLeftSnoc(f: (int, int) -> int, acc: int, s: seq<int>, x: int)
    ensures FoldLeft(f, acc, s + [x]) == f(FoldLeft(f, acc, s), x)
  {
    FoldLeftConcat(f, acc, s, [x]);
    assert [x][1..] == [];
  }

  lemma Fold1Snoc(f: (int, int) -> int, s: seq<int>, x: int)
    requires |s| >= 1
    ensures Fold1(f, s + [x]) == f(Fold1(f, s), x)
  {
    assert (s + [x])[0] == s[0] && (s + [x])[1..] == s[1..] + [x];
    FoldLeftSnoc(f, s[0], s[1..], x);
  }

  lemma {:induction false} FoldLeftAssociative(f: (int, int) -> int, a: int, b: int, s: seq<int>)
    requires Associative(f)
    ensures FoldLeft(f, f(a, b), s) == f(a, FoldLeft(f, b, s))
    decreases |s|
  {
    if |s| > 0 {
      AssociativeAt(f, a, b, s[0]);
      FoldLeftAssociative(f, a, f(b, s[0]), s[1..]);
    }
  }

  /** For an associative operator, reducing x + y is combining the reductions of x and y. */
  lemma Fold1Concat(f: (int, int) -> int, x: seq<int>, y: seq<int>)
    requires Associative(f) && |x| >= 1 && |y| >= 1
    ensures Fold1(f, x + y) == f(Fold1(f, x), Fold1(f, y))
  {
    assert (x + y)[0] == x[0] && (x + y)[1..] == x[1..] + y;
    FoldLeftConcat(f, x[0], x[1..], y);
    assert y == [y[0]] + y[1..];
    FoldLeftConcat(f, Fold1(f, x), [y[0]], y[1..]);
    FoldLeftAssociative(f, Fold1(f, x), y[0], y[1..]);
  }

  // ===========================================================================
  // Reduce partition geometry (src/ParallelCompute.java:88-93)
  // ===========================================================================

  /** First index of worker i's range: i * (len / t). */
  function WorkerStart(len: int, t: int, i: int): (start: int)
    requires t >= 1
  {
    i * (len / t)
  }

  /** End (exclusive) of worker i's range; the last worker runs to len. */
  function WorkerEnd(len: int, t: int, i: int): (end: int)
    requires t >= 1
  {
    if i == t - 1 then len else (i + 1) * (len / t)
  }

  /** step = len / t is at least 1, and worker i's range holds at least step indices inside [0, len). */
  lemma ReduceChunkGeometry(len: int, t: int, i: int)
    requires 1 <= t <= len && 0 <= i < t
    ensures len / t >= 1
    ensures 0 <= WorkerStart(len, t, i)
    ensures WorkerStart(len, t, i) + len / t <= WorkerEnd(len, t, i) <= len
    ensures i + 1 < t ==> WorkerEnd(len, t, i) == WorkerStart(len, t, i + 1)
    ensures i == 0 ==> WorkerStart(len, t, i) == 0
  {
    var step := len / t;
    DivMod.MulLeIffLeDiv(1, t, len);
    DivMod.MulMonotone(i + 1, t, step);
    DivMod.MulSucc(i, step);
    assert t * step <= len;
  }

  /** The worker whose range holds p: the ranges cover [0, len). */
  function ReduceOwner(len: int, t: int, p: int): (i: int)
    requires 1 <= t <= len && 0 <= p < len
    ensures 0 <= i < t
    ensures WorkerStart(len, t, i) <= p < WorkerEnd(len, t, i)
  {
    var step := len / t;
    ReduceChunkGeometry(len, t, 0);
    var i := Min(p / step, t - 1);
    DivMod.MulLeIffLeDiv(p / step, step, p);
    DivMod.MulLeIffLeDiv(p / step + 1, step, p);
    DivMod.MulMonotone(i, p / step, step);
    DivMod.MulSucc(i, step);
    i
  }

  /** No index lies in two ranges. */
  lemma ReduceRangesDisjoint(len: int, t: int, p: int, i: int)
    requires 1 <= t <= len && 0 <= p < len && 0 <= i < t
    requires WorkerStart(len, t, i) <= p < WorkerEnd(len, t, i)
    ensures i == ReduceOwner(len, t, p)
  {
    var step := len / t;
    ReduceChunkGeometry(len, t, i);
    if i < t - 1 {
      DivMod.MulSucc(i, step);
      DivMod.DivOfRange(p, step, i);
    } else {
      DivMod.MulLeIffLeDiv(i, step, p);
    }
  }

  /** Worker i's range of s. */
  function Chunk(s: seq<int>, t: int, i: int): (c: seq<int>)
    requires 1 <= t <= |s| && 0 <= i < t
    ensures |c| >= 1
  {
    ReduceChunkGeometry(|s|, t, i);
    s[WorkerStart(|s|, t, i)..WorkerEnd(|s|, t, i)]
  }

  /** Each worker reducing its own range: what the reduce evidently means to compute per slot. */
  function ChunkFolds(f: (int, int) -> int, s: seq<int>, t: int): (c: seq<int>)
    requires 1 <= t <= |s|
    ensures |c| == t
  {
    seq(t, i requires 0 <= i < t => Fold1(f, Chunk(s, t, i)))
  }

  /** The ranges of workers 0..i together: s up to the end of worker i's range. */
  function UpToWorker(s: seq<int>, t: int, i: int): (c: seq<int>)
    requires 1 <= t <= |s| && 0 <= i < t
    ensures |c| == WorkerEnd(|s|, t, i)
  {
    ReduceChunkGeometry(|s|, t, i);
    s[..WorkerEnd(|s|, t, i)]
  }

  /** The ranges up to worker i are the ranges up to worker i - 1 followed by worker i's range. */
  lemma UpToWorkerSnoc(s: seq<int>, t: int, i: int)
    requires 1 <= t <= |s| && 1 <= i < t
    ensures UpToWorker(s, t, i) == UpToWorker(s, t, i - 1) + Chunk(s, t, i)
  {
    ReduceChunkGeometry(|s|, t, i - 1);
    ReduceChunkGeometry(|s|, t, i);
    var mid, end := WorkerEnd(|s|, t, i - 1), WorkerEnd(|s|, t, i);
    assert s[..end] == s[..mid] + s[mid..end];
  }

  /** Reducing one more slot, when that slot is the reduction of y, extends a reduction of x to one of x + y. */
  lemma Fold1Extend(f: (int, int) -> int, c: seq<int>, k: int, x: seq<int>, y: seq<int>)
    requires Associative(f) && 2 <= k <= |c| && |x| >= 1 && |y| >= 1
    requires Fold1(f, c[..k - 1]) == Fold1(f, x) && c[k - 1] == Fold1(f, y)
    ensures Fold1(f, c[..k]) == Fold1(f, x + y)
  {
    assert c[..k] == c[..k - 1] + [c[k - 1]];
    Fold1Snoc(f, c[..k - 1], c[k - 1]);
    Fold1Concat(f, x, y);
  }

  /** One more range: reducing the first k slots extends reducing the first k - 1 by worker k - 1's range. */
  lemma ChunkFoldsStep(f: (int, int) -> int, s: seq<int>, t: int, k: int)
    requires Associative(f) && 1 <= t <= |s| && 2 <= k <= t
    requires Fold1(f, ChunkFolds(f, s, t)[..k - 1]) == Fold1(f, UpToWorker(s, t, k - 2))
    ensures Fold1(f, ChunkFolds(f, s, t)[..k]) == Fold1(f, UpToWorker(s, t, k - 1))
  {
    ReduceChunkGeometry(|s|, t, k - 2);
    UpToWorkerSnoc(s, t, k - 1);
    Fold1Extend(f, ChunkFolds(f, s, t), k, UpToWorker(s, t, k - 2), Chunk(s, t, k - 1));
  }

  lemma {:induction false} ChunkFoldsPrefix(f: (int, int) -> int, s: seq<int>, t: int, k: int)
    requires Associative(f) && 1 <= t <= |s| && 1 <= k <= t
    ensures Fold1(f, ChunkFolds(f, s, t)[..k]) == Fold1(f, UpToWorker(s, t, k - 1))
  {
    if k == 1 {
      var c := ChunkFolds(f, s, t);
      assert c[..1] == [c[0]];
      assert UpToWorker(s, t, 0) == Chunk(s, t, 0);
    } else {
      ChunkFoldsPrefix(f, s, t, k - 1);
      ChunkFoldsStep(f, s, t, k);
    }
  }

  /** For an associative operator, combining the per-range reductions in index order is the sequential reduce. */
  lemma ChunkedFoldIsFold(f: (int, int) -> int, s: seq<int>, t: int)
    requires Associative(f) && 1 <= t <= |s|
    ensures Fold1(f, ChunkFolds(f, s, t)) == Fold1(f, s)
  {
    ChunkFoldsPrefix(f, s, t, t);
    assert ChunkFolds(f, s, t)[..t] == ChunkFolds(f, s, t);
    assert UpToWorker(s, t, t - 1) == s;
  }

  // ===========================================================================
  // Reduce as written (src/ParallelCompute.java:59-113)
  // ===========================================================================

  /**
   * What worker i leaves in slot i: seeded with data[i] (src/ParallelCompute.java:75),
   * then folded with data[i * step + 1 .. end) (:93-94).
   */
  function WorkerFold(f: (int, int) -> int, data: seq<int>, t: int, i: int): (r: int)
    requires 1 <= t <= |data| && 0 <= i < t
  {
    FoldLeft(f, data[i], WorkerTail(data, t, i))
  }

  /** Worker i's range of data without its first index: what the worker loop folds in. */
  function WorkerTail(data: seq<int>, t: int, i: int): (c: seq<int>)
    requires 1 <= t <= |data| && 0 <= i < t
    ensures |c| == WorkerEnd(|data|, t, i) - WorkerStart(|data|, t, i) - 1
  {
    ReduceChunkGeometry(|data|, t, i);
    data[WorkerStart(|data|, t, i) + 1..WorkerEnd(|data|, t, i)]
  }

  /** The slot array once every reduce worker has finished. */
  function WorkerSlots(f: (int, int) -> int, data: seq<int>, t: int): (c: seq<int>)
    requires 1 <= t <= |data|
    ensures |c| == t
  {
    seq(t, i requires 0 <= i < t => WorkerFold(f, data, t, i))
  }

  /** data with the first index of each worker's range i overwritten by data[i]. */
  function Seeded(data: seq<int>, t: int): (s: seq<int>)
    requires 1 <= t <= |data|
    ensures |s| == |data|
  {
    ReduceChunkGeometry(|data|, t, 0);
    var step := |data| / t;
    seq(|data|, p requires 0 <= p < |data| =>
      if p % step == 0 && p / step < t then data[p / step] else data[p])
  }

  /** The first index of worker i's range holds data[i] in Seeded(data, t). */
  lemma SeededAtStart(data: seq<int>, t: int, i: int)
    requires 1 <= t <= |data| && 0 <= i < t
    ensures WorkerStart(|data|, t, i) < |data| && Seeded(data, t)[WorkerStart(|data|, t, i)] == data[i]
  {
    var step := |data| / t;
    ReduceChunkGeometry(|data|, t, i);
    DivMod.MulSucc(i, step);
    DivMod.DivOfRange(WorkerStart(|data|, t, i), step, i);
  }

  /** Every later index of worker i's range keeps its value in Seeded(data, t). */
  lemma SeededInside(data: seq<int>, t: int, i: int, p: int)
    requires 1 <= t <= |data| && 0 <= i < t
    requires WorkerStart(|data|, t, i) < p < WorkerEnd(|data|, t, i)
    ensures 0 <= p < |data| && Seeded(data, t)[p] == data[p]
  {
    var step := |data| / t;
    ReduceChunkGeometry(|data|, t, i);
    DivMod.MulSucc(i, step);
    if p < WorkerStart(|data|, t, i) + step {
      DivMod.DivOfRange(p, step, i);
    } else {
      DivMod.MulLeIffLeDiv(t, step, p);
    }
  }

  /** A sequence that agrees with data on worker i's range except for its first index, which holds data[i]. */
  lemma ChunkWithSeed(s: seq<int>, data: seq<int>, t: int, i: int)
    requires 1 <= t <= |data| == |s| && 0 <= i < t
    requires WorkerStart(|data|, t, i) < |s| && s[WorkerStart(|data|, t, i)] == data[i]
    requires forall p :: WorkerStart(|data|, t, i) < p < WorkerEnd(|data|, t, i) && p < |s| ==> s[p] == data[p]
    ensures Chunk(s, t, i) == [data[i]] + WorkerTail(data, t, i)
  {
    var a, e := WorkerStart(|data|, t, i), WorkerEnd(|data|, t, i);
    ReduceChunkGeometry(|data|, t, i);
    assert Chunk(s, t, i) == [s[a]] + s[a + 1..e];
    assert s[a + 1..e] == data[a + 1..e];
  }

  /** Worker i's range in Seeded(data, t) is data[i] followed by the rest of worker i's range of data. */
  lemma SeededChunk(data: seq<int>, t: int, i: int)
    requires 1 <= t <= |data| && 0 <= i < t
    ensures Chunk(Seeded(data, t), t, i) == [data[i]] + WorkerTail(data, t, i)
  {
    var s := Seeded(data, t);
    SeededAtStart(data, t, i);
    forall p | WorkerStart(|data|, t, i) < p < WorkerEnd(|data|, t, i) && p < |s| ensures s[p] == data[p] {
      SeededInside(data, t, i, p);
    }
    ChunkWithSeed(s, data, t, i);
  }

  /** The written slots are exactly the per-range reductions of Seeded(data, t). */
  lemma WorkerSlotsAreSeededChunkFolds(f: (int, int) -> int, data: seq<int>, t: int)
    requires 1 <= t <= |data|
    ensures WorkerSlots(f, data, t) == ChunkFolds(f, Seeded(data, t), t)
  {
    forall i | 0 <= i < t ensures WorkerSlots(f, data, t)[i] == ChunkFolds(f, Seeded(data, t), t)[i] {
      SeededChunk(data, t, i);
      var c := Chunk(Seeded(data, t), t, i);
      assert c[0] == data[i] && c[1..] == WorkerTail(data, t, i);
    }
  }

  /**
   * For an associative operator the reduce as written is the sequential
   * reduce of data with position i * step replaced by data[i] for every worker i.
   */
  lemma AsWrittenReduceIsSeededFold(f: (int, int) -> int, data: seq<int>, t: int)
    requires Associative(f) && 1 <= t <= |data|
    ensures Fold1(f, WorkerSlots(f, data, t)) == Fold1(f, Seeded(data, t))
  {
    WorkerSlotsAreSeededChunkFolds(f, data, t);
    ChunkedFoldIsFold(f, Seeded(data, t), t);
  }

  /** The seeding is harmless when data[i] already equals data[i * step] for every worker i. */
  lemma SeededUnchanged(data: seq<int>, t: int)
    requires 1 <= t <= |data|
    requires forall i :: 0 <= i < t ==> data[i] == data[WorkerStart(|data|, t, i)]
    ensures Seeded(data, t) == data
  {
    var step := |data| / t;
    ReduceChunkGeometry(|data|, t, 0);
    forall p | 0 <= p < |data| && p % step == 0 && p / step < t ensures data[p / step] == data[p] {
      var i := p / step;
      assert p == i * step;
      assert data[i] == data[WorkerStart(|data|, t, i)];
    }
  }

  /** With a single worker no slot is re-seeded. */
  lemma SeededSingleWorker(data: seq<int>)
    requires |data| >= 1
    ensures Seeded(data, 1) == data
  {
    SeededUnchanged(data, 1);
  }

  /** The body of reduce worker index: fold the rest of its range into its slot (src/ParallelCompute.java:87-95). */
  method RunReduceWorker(data: array<int>, binOp: (int, int) -> int, results: array<int>, index: int, threadCount: int)
    requires 1 <= threadCount == results.Length <= data.Length && 0 <= index < threadCount
    requires results != data
    modifies results
    ensures results[index] == FoldLeft(binOp, old(results[index]), WorkerTail(data[..], threadCount, index))
    ensures forall k :: 0 <= k < results.Length && k != index ==> results[k] == old(results[k])
  {
    ReduceChunkGeometry(data.Length, threadCount, index);
    var step := data.Length / threadCount;
    var end := (index + 1) * step;
    if index == threadCount - 1 {
      end := data.Length;
    }
    for j := index * step + 1 to end
      invariant results[index] == FoldLeft(binOp, old(results[index]), data[index * step + 1..j])
      invariant forall k :: 0 <= k < results.Length && k != index ==> results[k] == old(results[k])
    {
      FoldLeftSnoc(binOp, old(results[index]), data[index * step + 1..j], data[j]);
      assert data[index * step + 1..j + 1] == data[index * step + 1..j] + [data[j]];
      results[index] := binOp(results[index], data[j]);
    }
  }

  /** The combine loop (src/ParallelCompute.java:108-111): the slots folded in index order. */
  method CombineReduceSlots(results: array<int>, binOp: (int, int) -> int) returns (result: int)
    requires results.Length >= 1
    ensures result == Fold1(binOp, results[..])
  {
    result := results[0];
    for i := 1 to results.Length
      invariant result == FoldLeft(binOp, results[0], results[1..i])
    {
      FoldLeftSnoc(binOp, results[0], results[1..i], results[i]);
      assert results[1..i + 1] == results[1..i] + [results[i]];
      result := binOp(result, results[i]);
    }
    assert results[1..results.Length] == results[..][1..];
  }

  method ParallelReduceArray(data: array?<int>, binOp: Option<(int, int) -> int>, threadCount: int, procs: int)
    returns (r: Result<int>)
    requires procs >= 1
    ensures data == null || binOp.None? ==> r == Err(NullPointer)
    ensures data != null && binOp.Some? && (data.Length == 0 || threadCount <= 0) ==> r == Err(IllegalArgument)
    ensures data != null && binOp.Some? && data.Length >= 1 && threadCount >= 1
      ==> r == Ok(Fold1(binOp.value, WorkerSlots(binOp.value, data[..], EffectiveThreads(threadCount, data.Length, 2, procs))))
    ensures data != null && binOp.Some? && data.Length >= 1 && threadCount >= 1 && Associative(binOp.value)
      ==> r == Ok(Fold1(binOp.value, Seeded(data[..], EffectiveThreads(threadCount, data.Length, 2, procs))))
  {
    if data == null || binOp.None? {
      return Err(NullPointer);
    }
    if data.Length == 0 || threadCount <= 0 {
      return Err(IllegalArgument);
    }
    var f := binOp.value;
    var t := threadCount;
    if t > data.Length / 2 {
      t := Max(data.Length / 2, 1);
    }
    t := Min(t, procs);
    assert t == EffectiveThreads(threadCount, data.Length, 2, procs);
    var results := new int[t];
    for i := 0 to t
      invariant forall k :: 0 <= k < i ==> results[k] == WorkerFold(f, data[..], t, k)
    {
      results[i] := data[i];
      RunReduceWorker(data, f, results, i, t);
    }
    assert results[..] == WorkerSlots(f, data[..], t);
    var result := CombineReduceSlots(results, f);
    if Associative(f) {
      AsWrittenReduceIsSeededFold(f, data[..], t);
    }
    return Ok(result);
  }

  /** The reduce with slot i seeded by the first element of its own range: the sequential reduce for associative operators. */
  method ParallelReduceArraySeededByRange(data: array?<int>, binOp: Option<(int, int) -> int>, threadCount: int, procs: int)
    returns (r: Result<int>)
    requires procs >= 1
    ensures data == null || binOp.None? ==> r == Err(NullPointer)
    ensures data != null && binOp.Some? && (data.Length == 0 || threadCount <= 0) ==> r == Err(IllegalArgument)
    ensures data != null && binOp.Some? && data.Length >= 1 && threadCount >= 1
      ==> r == Ok(Fold1(binOp.value, ChunkFolds(binOp.value, data[..], EffectiveThreads(threadCount, data.Length, 2, procs))))
    ensures data != null && binOp.Some? && data.Length >= 1 && threadCount >= 1 && Associative(binOp.value)
      ==> r == Ok(Fold1(binOp.value, data[..]))
  {
    if data == null || binOp.None? {
      return Err(NullPointer);
    }
    if data.Length == 0 || threadCount <= 0 {
      return Err(IllegalArgument);
    }
    var f := binOp.value;
    var t := threadCount;
    if t > data.Length / 2 {
      t := Max(data.Length / 2, 1);
    }
    t := Min(t, procs);
    assert t == EffectiveThreads(threadCount, data.Length, 2, procs);
    var results := new int[t];
    for i := 0 to t
      invariant forall k :: 0 <= k < i ==> results[k] == ChunkFolds(f, data[..], t)[k]
    {
      ReduceChunkGeometry(data.Length, t, i);
      results[i] := data[i * (data.Length / t)];
      RunReduceWorker(data, f, results, i, t);
    }
    assert results[..] == ChunkFolds(f, data[..], t);
    var result := CombineReduceSlots(results, f);
    if Associative(f) {
      ChunkedFoldIsFold(f, data[..], t);
    }
    return Ok(result);
  }

  /** Worker count of the reduce: the workload clamp is len / 2 (src/ParallelCompute.java:67-70). */
  lemma ReduceThreadBounds(len: int, threadCount: int, procs: int)
    requires len >= 1 && threadCount >= 1 && procs >= 1
    ensures var t := EffectiveThreads(threadCount, len, 2, procs);
      1 <= t <= threadCount && t <= Max(len / 2, 1) && t <= procs && t <= len && len / t >= 1
  {
    var t := EffectiveThreads(threadCount, len, 2, procs);
    ReduceChunkGeometry(len, t, 0);
  }

  // ===========================================================================
  // The test cases (src/ParallelCompute.java:132-164)
  // ===========================================================================

  /** The ten values of ReduceTest01 and ReduceTest02. */
  function ReduceTestData(): (s: seq<int>)
  {
    [123435, 123434, 123435, 12348, 12346, 123434, 1234436, 12348990, 123423, 1234]
  }

  /** maxBy with the test's comparator, on values. */
  function MaxOp(a: int, b: int): (r: int)
  {
    if a >= b then a else b
  }

  function Multiply(a: int, b: int): (r: int)
  {
    a * b
  }

  function Add(a: int, b: int): (r: int)
  {
    a + b
  }

  /**
   * Both reduce tests pass on any machine: the operators are associative and,
   * with at most two workers of step 5, the re-seeded position 5 already
   * holds data[1].
   */
  lemma ReduceTestsAgreeWithSequential(procs: int)
    requires procs >= 1
    ensures Associative(MaxOp) && Associative(Multiply)
    ensures Seeded(ReduceTestData(), EffectiveThreads(2, 10, 2, procs)) == ReduceTestData()
  {
    forall a, b, c ensures Multiply(Multiply(a, b), c) == Multiply(a, Multiply(b, c)) {
      DivMod.MulAssoc(a, b, c);
    }
    var data := ReduceTestData();
    var t := EffectiveThreads(2, 10, 2, procs);
    if t == 1 {
      SeededSingleWorker(data);
    } else {
      assert t == 2 && WorkerStart(10, 2, 1) == 5;
      SeededUnchanged(data, 2);
    }
  }

  /** Summing [0, 1, 0, 0] with two workers of step 2: slot 1 is seeded with 1 instead of 0, giving 2 instead of 1. */
  lemma SeedingDefectExample(procs: int)
    requires procs >= 2
    ensures EffectiveThreads(2, 4, 2, procs) == 2
    ensures Associative(Add)
    ensures WorkerSlots(Add, [0, 1, 0, 0], 2) == [1, 1]
    ensures Fold1(Add, WorkerSlots(Add, [0, 1, 0, 0], 2)) == 2
    ensures Fold1(Add, [0, 1, 0, 0]) == 1
  {
    var d := [0, 1, 0, 0];
    assert WorkerStart(4, 2, 0) == 0 && WorkerEnd(4, 2, 0) == 2;
    assert WorkerStart(4, 2, 1) == 2 && WorkerEnd(4, 2, 1) == 4;
    assert WorkerTail(d, 2, 0) == [1] && WorkerTail(d, 2, 1) == [0];
    assert WorkerFold(Add, d, 2, 0) == FoldLeft(Add, 0, [1]) == 1;
    assert WorkerFold(Add, d, 2, 1) == FoldLeft(Add, 1, [0]) == 1;
    assert WorkerSlots(Add, d, 2) == [1, 1];
    assert Fold1(Add, [1, 1]) == FoldLeft(Add, 1, [1]);
    assert Fold1(Add, d) == FoldLeft(Add, 0, [1, 0, 0]);
  }
}
