# ArrayEditProcessing in Dafny

A model of the one-dimensional array operations of ArrayEditProcessing, a small Java program
that edits an array in place: replace one value by another, serially or with four worker
threads; crop an array into a new one; smooth out-of-range values; and a fill worker that
rewrites runs of equal adjacent values. Elements are Java `int`s (`JavaLang.int32`). Equality is
value equality.

Modules, one per source file, plus one for Java arithmetic:

- `JavaLang` (`java_lang.dfy`): the 32-bit `int`, its wrapping `+` (`Add`) and its `/ 2`, which
  truncates toward zero (`Half`). It also holds the exceptions the code can raise.
- `ReplaceWorker` (`replace_in_parallel.dfy`): the `Replace_inParallel` runnable as a class.
  Its constructor sets the five fields. `Run` replaces inside `[startPos, endPos)`. Its meaning
  is the function `ReplacedRange`, and lemmas give that function's properties.
- `ChunkPlan` (`chunk_plan.dfy`): the chunk arithmetic of the parallel `replace`, written as
  pure functions. It covers the chunk length `size/4`, the starts the dispatch loop visits, and
  `RunChunks`, which runs the chunk workers one after another.
- `ArrayEditor` (`array_editor.dfy`): `replace`, `crop` and the modelled part of `smooth` from
  `src/ArrayEditor.java`.
- `FillWorker` (`fill_in_parallel.dfy`): the `Fill_inParallel` runnable as a class. `Run` keeps
  the `prevAdj` state across iterations. Its meaning is the function `Filled`.
- `RootArrayEditor` (`array_editor_root.dfy`): the older top-level `ArrayEditor.java`. Its
  `replace` has the same code and is delegated. Its `crop` is `void`, so only its exception is
  visible.

The threads of the parallel replace are modelled as sequential calls of the worker loop, one
chunk after another. The chunks are disjoint and adjacent (`ChunksAdjacentAndDisjoint`), which
is the argument the source's comments give for running without synchronisation. Two workers
also give the same array whichever runs first (`ReplacedRangeCommute`), so the order chosen
here does not matter.

Where the code and its own comments disagree, the model follows the code, and a member pins
what the code actually does:

- smooth on `[40, 5, 200, 15]` gives `[40, 5, 200, 100]`, not `[40, 5, 10, 15]`;
- the fill worker on `[0, 2, 0, 1, 1, 1, 2, 2, 1]` gives `[0, 2, 0, 7, 1, 7, 7, 2, 1]`, not
  `[0, 2, 0, 7, 7, 7, 2, 2, 1]`;
- crop's example (a 100-element array cut to "elements 10 to 20", result size 10) raises
  ArrayIndexOutOfBoundsException at `new_Array[10]` (`CropDocExample`);
- the comment on replace says the last thread's range is `(size/2+size/4, size)`. The chunk loop
  breaks that whenever 4 does not divide `size`: its last chunk is `[4k, 5k)`, which runs past
  the end of the array (`LastChunkEnd`).

## Model

| member | source | states |
|---|---|---|
| JavaLang.Add | src/ArrayEditor.java:231 | Java `int` addition: the exact sum when it fits in 32 bits, otherwise the sum moved by 2^32 |
| JavaLang.Half | src/ArrayEditor.java:235-236 | Java `x / 2`: truncation toward zero, so `2*r` lies between 0 and `x` and within 1 of `x`, for either sign |
| ReplaceWorker.ReplaceInParallel.constructor | src/Replace_inParallel.java:18-24 | the worker stores the array, the two values and the range it is given |
| ReplaceWorker.ReplaceInParallel.Run | src/Replace_inParallel.java:27-37 | given an empty range or one inside the array, the array ends as `ReplacedRange` of its old contents over `[startPos, endPos)` |
| ReplaceWorker.ReplacedRangeAt | src/Replace_inParallel.java:30-33 | length is kept; inside the range `oldValue` becomes `newValue`; every other index, and every index not holding `oldValue`, is unchanged |
| ReplaceWorker.ReplacedRangeTotal | src/Replace_inParallel.java:31-32 | afterwards no index of the range holds `oldValue`, unless `oldValue == newValue` |
| ReplaceWorker.ReplacedRangeIdempotent | src/Replace_inParallel.java:31-32 | running the worker twice equals running it once |
| ReplaceWorker.ReplacedRangeEmpty | src/Replace_inParallel.java:30 | an empty range (`startPos >= endPos`) changes nothing |
| ReplaceWorker.ReplacedRangeCommute | src/ArrayEditor.java:53-54 | two workers give the same array in either order, for any two ranges, so the threads' interleaving of whole workers does not change the result |
| ReplaceWorker.ReplacedRangeSplit | src/Replace_inParallel.java:30-33 | running `[a,b)` and then `[b,c)` equals running `[a,c)` |
| ChunkPlan.ChunkLength | src/ArrayEditor.java:71-75 | for `size >= 40` the chunk length `size/4` is at least 10, so the dispatch loop makes progress, and `4k <= size < 4k + 4` |
| ChunkPlan.ChunkStartsShape | src/ArrayEditor.java:75-76 | the dispatch loop visits exactly 0, k, 2k, 3k, plus 4k when 4 does not divide `size` |
| ChunkPlan.ChunksAdjacentAndDisjoint | ArrayEditor.java:56-58 | chunk j starts at j*k; each chunk starts where the previous one ends; no two chunks overlap |
| ChunkPlan.ChunksCover | ArrayEditor.java:57-58 | every index of `[0, size)` lies in some chunk `[i, i+k)` |
| ChunkPlan.LastChunkEnd | src/ArrayEditor.java:75-76 | there are 4 chunks when 4 divides `size`, else 5; the last chunk ends inside the array iff 4 divides `size`, and then it ends exactly at `size` |
| ChunkPlan.RunAdjacentChunks | src/ArrayEditor.java:53-54 | workers over adjacent chunks, run in order, equal one worker over the union of the chunks |
| ChunkPlan.ChunkedReplaceIsSerial | ArrayEditor.java:49 | when 4 divides `size`, running the chunk workers one after another equals the serial replace over the whole array |
| ArrayEditor.Replace | src/ArrayEditor.java:62-99 | serial branch and chunked branch both end with every `oldValue` replaced by `newValue` across the whole array and everything else unchanged; the chunked branch is only safe when 4 divides the length |
| ArrayEditor.Crop | src/ArrayEditor.java:125-141 | it raises exactly when `newSize < 0` (NegativeArraySizeException) or the copy indexes out of bounds (`newSize < 20` for a source of 20 or more, `newSize > length` for a shorter one); otherwise it returns a fresh array of `newSize` slots that holds source indices 10..19 at the same positions with null elsewhere (long source) or the first `newSize` source elements (short source); `startPos` is not used and the source is not written |
| ArrayEditor.CropDocExample | src/ArrayEditor.java:112-132 | the documented crop of a 100-element array to size 10 raises ArrayIndexOutOfBoundsException |
| ArrayEditor.Smooth | src/ArrayEditor.java:229-237 | the array ends as `Smoothed` of its old contents: the interior loop, then the right-edge step |
| ArrayEditor.SmoothLoopFrame | src/ArrayEditor.java:229-233 | the loop writes only indices it has reached and never the last one, so the guard reads the same value in every iteration |
| ArrayEditor.SmoothLoopInRange | src/ArrayEditor.java:230 | if the last element lies within [min, max], the loop changes nothing |
| ArrayEditor.SmoothLoopAverages | src/ArrayEditor.java:229-233 | if the last element is out of range, each interior index j ends as `(r[j-1] + s[j+1]) / 2`, where r[j-1] is the already-smoothed left neighbour |
| ArrayEditor.SmoothedFirstAndShort | src/ArrayEditor.java:229-237 | the modelled steps keep the length and the first element, and leave arrays shorter than 2 untouched |
| ArrayEditor.SmoothedLastElement | src/ArrayEditor.java:234-237 | the last element becomes half the smoothed element before it when that element is out of range, and keeps its value otherwise |
| ArrayEditor.SmoothDocExample | src/ArrayEditor.java:212-215 | `[40,5,200,15]` with min 0 and max 100 gives `[40,5,200,100]`, not the documented `[40,5,10,15]` |
| ArrayEditor.SmoothPropagates | src/ArrayEditor.java:230-231 | `[10,0,20,200]` gives `[10,15,107,200]` after the loop (107 comes from the rewritten 15) and `[10,15,107,53]` at the end |
| ArrayEditor.SmoothTruncates | src/ArrayEditor.java:231 | `[-5,0,-4,200]` gives `[-5,-4,98,200]`: the division truncates toward zero |
| FillWorker.FillInParallel.constructor | src/Fill_inParallel.java:18-24 | the worker stores the array, the new value and the range it is given |
| FillWorker.FillInParallel.Run | src/Fill_inParallel.java:27-49 | given a range with no iteration or one inside the array, the array ends as `Filled` of its old contents |
| FillWorker.FillFromFrame | src/Fill_inParallel.java:33-44 | the iterations from i on keep the length and change only indices in `[i-1, end)`, each to `newValue` |
| FillWorker.FilledFrame | src/Fill_inParallel.java:33-44 | a run changes only indices in `[startIndex, endIndex)`, and every changed index holds `newValue` |
| FillWorker.FilledShortRange | src/Fill_inParallel.java:33 | a range of length at most 1 is left unchanged |
| FillWorker.FillFromNoRun | src/Fill_inParallel.java:34-43 | with no run open and no equal adjacent pair ahead, the remaining iterations write nothing |
| FillWorker.FilledNoAdjacentEqual | src/Fill_inParallel.java:31-43 | if no two adjacent cells of the range are equal, the array is unchanged |
| FillWorker.FillSentinelExamples | src/Fill_inParallel.java:31-43 | the sentinel `prevAdj >= 0` makes `[3,3,3]` become `[7,3,7]` but `[-3,-3,-3]` become `[7,7,-3]` |
| FillWorker.FillDocExample | src/Fill_inParallel.java:33-44 | `[0,2,0,1,1,1,2,2,1]` over `[0,9)` with 7 gives `[0,2,0,7,1,7,7,2,1]`, not the documented `[0,2,0,7,7,7,2,2,1]` |
| RootArrayEditor.Replace | ArrayEditor.java:46-84 | same effect as the later replace: every `oldValue` becomes `newValue` and everything else is unchanged |
| RootArrayEditor.Crop | ArrayEditor.java:89-106 | completes exactly when the copy stays in bounds, else raises the same exception as the later crop; the argument array is not changed and no copy reaches the caller |

## Left out

- Thread pools and joining are left out: creating the `ExecutorService`, `execute`,
  `shutdown`, the busy wait on `isTerminated` and `shutdownNow`. The workers run one after
  another. This matches the threaded run because the ranges are disjoint and two workers
  commute (`ReplacedRangeCommute`).
- Test data and output are left out: `GenerateTestArray` (random), `main`, the `nanoTime`
  timing and every `println`/`printStackTrace`. They are I/O and randomness.
- `fill(T[], T, int)` in `src/ArrayEditor.java` does not compile, so it is not modelled. It uses
  `n_threads` before declaring it, names an undefined `oldValue`, and calls a 4-argument
  constructor with 5 arguments. Only the `Fill_inParallel` worker is modelled.
- The left-edge step of smooth (`src/ArrayEditor.java:227`) is a syntax error (`? : … :`), so
  `ArrayEditor.Smooth` starts at the interior loop.
- Empty stubs have no behaviour. These are the 2-D `replace` and `crop`, `blur`,
  `edgeDetection` and `unittest` in `src/ArrayEditor.java`, and `fill` and `smooth` in
  `ArrayEditor.java`.
- The component-type `assert` in both crops is left out. Java assertions are off by default,
  and with them on it would fail for every call (`Object` against `Integer`).
- Generics and boxing are not modelled. The Java compares `T` with `<`/`>`, casts `(T)-1`, and
  compares boxed `Integer`s by reference with `==`. The model uses `int32` values and value
  equality.
- Floating-point elements, which the doc comments mention, are not modelled.
- The `oldValue` field of `Fill_inParallel` is left out. Its constructor assigns the field to
  itself, and `run` never reads it.
- ReplaceWorker.ReplaceInParallel.Run: a range that is non-empty but leaves the array is a
  precondition. The Java writes up to the bad index, then calls `System.exit(0)`, which ends the
  program.
- FillWorker.FillInParallel.Run: the same applies. An out-of-bounds range is a precondition
  instead of the partial write followed by `System.exit(0)`.
- ArrayEditor.Replace: for 40 elements or more, it requires 4 to divide the length. Otherwise
  the fifth worker overruns the array and its `System.exit` ends the program.
  `ChunkPlan.LastChunkEnd` states this overrun.
- ArrayEditor.Replace: the chunk arithmetic `i + size/4` is unbounded. Java `int` overflow in it
  would need lengths above about 1.7e9 elements.
- ArrayEditor.Crop: the index checks happen before copying. The Java raises part-way through the
  copy, but the half-filled array is dropped, so no caller can see the difference.
- Null arrays are not modelled. A `null` argument makes `replace`, `crop` and `smooth` raise
  NullPointerException, and makes the workers call `System.exit`; a Dafny `array<int32>` is never
  null.
- Index bounds are unbounded integers, not `int32`: `startPos`, `endPos`, `startIndex`,
  `endIndex` and `newSize`. So `startIndex + 1` in the fill loop (src/Fill_inParallel.java:33)
  cannot wrap at the largest `int` as it does in Java.
