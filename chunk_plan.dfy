// The chunk plan of the parallel replace: for an array of `size >= 40` elements, the loop
// `for (i = 0; i < size; i += size/n_threads)` hands one worker the range [i, i + size/n_threads)
// for each i it visits, with n_threads = 4. The plan is pure index arithmetic; the workers are
// modelled as running one after another.

module ChunkPlan {
  import opened JavaLang
  import opened ReplaceWorker

  /** `n_threads` in `replace`. */
  const THREADS: int := 4
  /** `replace` dispatches workers only when the array has at least this many elements. */
  const PARALLEL_THRESHOLD: int := 40

  /** The chunk length `size/n_threads`: at least 10, and a quarter of `size` rounded down. */
  function ChunkLength(size: int): (k: int)
    requires size >= PARALLEL_THRESHOLD
    ensures k >= 10
    ensures THREADS * k <= size < THREADS * k + THREADS
  {
    size / THREADS
  }

  /** The values `i` takes in `for (i = from; i < size; i += k)`. */
  function StartsFrom(from: int, size: int, k: int): seq<int>
    requires k > 0
    decreases size - from
  {
    if from >= size then [] else [from] + StartsFrom(from + k, size, k)
  }

  /** The start of every chunk the dispatch loop creates. */
  function ChunkStarts(size: int): seq<int>
    requires size >= PARALLEL_THRESHOLD
  {
    StartsFrom(0, size, ChunkLength(size))
  }

  /** The loop visits 0, k, 2k, 3k, and also 4k exactly when 4 does not divide `size`. */
  lemma ChunkStartsShape(size: int)
    requires size >= PARALLEL_THRESHOLD
    ensures var k := ChunkLength(size);
      ChunkStarts(size) == if size % THREADS == 0 then [0, k, 2 * k, 3 * k] else [0, k, 2 * k, 3 * k, 4 * k]
  {
    var k := ChunkLength(size);
    assert StartsFrom(5 * k, size, k) == [];
    assert StartsFrom(4 * k, size, k) == if size % THREADS == 0 then [] else [4 * k];
    assert StartsFrom(3 * k, size, k) == [3 * k] + StartsFrom(4 * k, size, k);
    assert StartsFrom(2 * k, size, k) == [2 * k] + StartsFrom(3 * k, size, k);
    assert StartsFrom(k, size, k) == [k] + StartsFrom(2 * k, size, k);
    assert StartsFrom(0, size, k) == [0] + StartsFrom(k, size, k);
  }

  /** Chunk j starts at j * k, so the chunks [start, start + k) follow one another without gap:
      each starts where the previous one ends, and consequently no two of them overlap. */
  lemma ChunksAdjacentAndDisjoint(size: int)
    requires size >= PARALLEL_THRESHOLD
    ensures var starts, k := ChunkStarts(size), ChunkLength(size);
      && (forall j :: 0 <= j < |starts| ==> starts[j] == j * k)
      && (forall j :: 0 <= j < |starts| - 1 ==> starts[j] + k == starts[j + 1])
      && (forall j1, j2 :: 0 <= j1 < j2 < |starts| ==> starts[j1] + k <= starts[j2])
  {
    ChunkStartsShape(size);
  }

  /** Index x lies in one of the chunks [start, start + k). */
  predicate InSomeChunk(starts: seq<int>, k: int, x: int)
  {
    exists j :: 0 <= j < |starts| && starts[j] <= x < starts[j] + k
  }

  /** Every index of the array lies in some chunk. */
  lemma ChunksCover(size: int)
    requires size >= PARALLEL_THRESHOLD
    ensures forall x :: 0 <= x < size ==> InSomeChunk(ChunkStarts(size), ChunkLength(size), x)
  {
    var starts, k := ChunkStarts(size), ChunkLength(size);
    ChunkStartsShape(size);
    forall x | 0 <= x < size
      ensures InSomeChunk(starts, k, x)
    {
      var j := if x < k then 0 else if x < 2 * k then 1 else if x < 3 * k then 2 else if x < 4 * k then 3 else 4;
      assert starts[j] <= x < starts[j] + k;
    }
  }

  /** The last chunk ends inside the array exactly when 4 divides `size` (and then it ends at
      `size`); otherwise the fifth worker's range runs past the end of the array. */
  lemma LastChunkEnd(size: int)
    requires size >= PARALLEL_THRESHOLD
    ensures var starts, k := ChunkStarts(size), ChunkLength(size);
      && |starts| == (if size % THREADS == 0 then 4 else 5)
      && (starts[|starts| - 1] + k <= size <==> size % THREADS == 0)
      && (size % THREADS == 0 ==> starts[|starts| - 1] + k == size)
  {
    ChunkStartsShape(size);
  }

  /** The array after the workers for `starts` (each of length k) have run one after another. */
  function RunChunks(s: seq<int32>, starts: seq<int>, k: int, oldValue: int32, newValue: int32): seq<int32>
    decreases |starts|
  {
    if starts == [] then s
    else
      var last := starts[|starts| - 1];
      ReplacedRange(RunChunks(s, starts[..|starts| - 1], k, oldValue, newValue), last, last + k, oldValue, newValue)
  }

  /** Workers over adjacent chunks, run in order, do what one worker over their union does. */
  lemma {:induction false} RunAdjacentChunks(s: seq<int32>, starts: seq<int>, k: int, oldValue: int32, newValue: int32)
    requires |starts| > 0 && k >= 0
    requires forall j :: 0 <= j < |starts| - 1 ==> starts[j] + k == starts[j + 1]
    ensures starts[0] <= starts[|starts| - 1]
    ensures RunChunks(s, starts, k, oldValue, newValue)
         == ReplacedRange(s, starts[0], starts[|starts| - 1] + k, oldValue, newValue)
  {
    var n := |starts|;
    if n == 1 {
      assert starts[..0] == [];
      assert RunChunks(s, starts[..0], k, oldValue, newValue) == s;
    } else {
      var init := starts[..n - 1];
      RunAdjacentChunks(s, init, k, oldValue, newValue);
      assert init[|init| - 1] + k == starts[n - 1];
      ReplacedRangeSplit(s, starts[0], starts[n - 1], starts[n - 1] + k, oldValue, newValue);
    }
  }

  /** When 4 divides `size`, the chunked replace has the effect of the serial loop over the
      whole array. */
  lemma ChunkedReplaceIsSerial(s: seq<int32>, oldValue: int32, newValue: int32)
    requires |s| >= PARALLEL_THRESHOLD && |s| % THREADS == 0
    ensures RunChunks(s, ChunkStarts(|s|), ChunkLength(|s|), oldValue, newValue)
         == ReplacedRange(s, 0, |s|, oldValue, newValue)
  {
    ChunksAdjacentAndDisjoint(|s|);
    LastChunkEnd(|s|);
    RunAdjacentChunks(s, ChunkStarts(|s|), ChunkLength(|s|), oldValue, newValue);
  }
}
