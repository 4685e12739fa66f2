// The top-level ArrayEditor.java, an earlier version of src/ArrayEditor.java: its replace has the
// same code, and its crop is `void`, so the cropped copy never reaches the caller.

module RootArrayEditor {
  import opened JavaLang
  import opened ReplaceWorker
  import opened ChunkPlan
  import ArrayEditor

  /** `replace(T[], T, T)`: line for line the method of src/ArrayEditor.java. */
  method Replace(a: array<int32>, oldValue: int32, newValue: int32)
    requires a.Length < PARALLEL_THRESHOLD || a.Length % THREADS == 0
    modifies a
    ensures a[..] == ReplacedRange(old(a[..]), 0, a.Length, oldValue, newValue)
  {
    ArrayEditor.Replace(a, oldValue, newValue);
  }

  /** `void crop(T[], int, int)`: builds the same copy as the later version and drops it. The
      only thing a caller can observe is whether it raised; `currArray` is never written, since
      the method has no right to modify it. */
  method Crop(currArray: array<int32>, newSize: int, startPos: int) returns (outcome: Outcome)
    ensures outcome.Completed? <==> ArrayEditor.CropInBounds(currArray.Length, newSize)
    ensures outcome.Raised? ==>
      outcome.exception == if newSize < 0 then NegativeArraySizeException else ArrayIndexOutOfBoundsException
  {
    var r := ArrayEditor.Crop(currArray, newSize, startPos);
    outcome := if r.Returned? then Completed else Raised(r.exception);
  }
}
