// ArrayEditor (src/ArrayEditor.java): the 1-D replace with its serial loop and its chunked
// dispatch, the 1-D crop, and the interior and right-edge steps of the 1-D smooth.

module ArrayEditor {
  import opened JavaLang
  import opened ReplaceWorker
  import opened ChunkPlan

  // ---------------------------------------------------------------------------------------
  // Replace

  /** `replace(T[], T, T)`. Below 40 elements a serial loop replaces every `oldValue` by
      `newValue`; from 40 elements on, one worker per chunk of the plan in ChunkPlan does the
      same over its chunk, here one after another. A fifth chunk runs past the end of the array
      (and its worker ends the program) unless 4 divides the length, hence the precondition. */
  method Replace(a: array<int32>, oldValue: int32, newValue: int32)
    requires a.Length < PARALLEL_THRESHOLD || a.Length % THREADS == 0
    modifies a
    ensures a[..] == ReplacedRange(old(a[..]), 0, a.Length, oldValue, newValue)
  {
    var size := a.Length;
    if size >= PARALLEL_THRESHOLD {
      var nThreads := THREADS;
      ghost var starts := ChunkStarts(size);
      ChunksAdjacentAndDisjoint(size);
      LastChunkEnd(size);
      ghost var j := 0;
      var i := 0;
      while i < size
        invariant 0 <= j <= |starts|
        invariant i == if j < |starts| then starts[j] else size
        invariant a[..] == RunChunks(old(a[..]), starts[..j], size / nThreads, oldValue, newValue)
      {
        var worker := new ReplaceInParallel(a, oldValue, newValue, i, i + size / nThreads);
        worker.Run();
        assert starts[..j + 1][..j] == starts[..j];
        i := i + size / nThreads;
        j := j + 1;
      }
      assert starts[..j] == starts;
      ChunkedReplaceIsSerial(old(a[..]), oldValue, newValue);
    } else {
      for i := 0 to size
        invariant a[..] == ReplacedRange(old(a[..]), 0, i, oldValue, newValue)
      {
        if a[i] == oldValue {
          a[i] := newValue;
        }
      }
    }
  }

  // ---------------------------------------------------------------------------------------
  // Crop

  /** A slot of the `Object[]` that crop allocates: `null` until something is stored in it. */
  datatype Slot = Null | Int(value: int32)

  /** What `crop` gives back: the new array, or the exception it raised. */
  datatype CropResult = Returned(arr: array<Slot>) | Thrown(exception: JavaException)

  /** Crop allocates `newSize` slots and then either copies indices 10..19 (source of at least
      20 elements) or indices 0..newSize-1 (shorter source); each needs its indices to exist. */
  predicate CropInBounds(length: int, newSize: int)
  {
    0 <= newSize && (if length >= 20 then newSize >= 20 else newSize <= length)
  }

  /** `crop(T[], int, int)`. The copy does not depend on `startPos`, and `c` is only read: the
      assignment to the parameter at the end of the Java method is local to it. The index checks
      are made before the copy loop; the Java method raises the same exception part-way through
      the loop, which leaves nothing visible since the half-filled array is dropped. */
  method Crop(c: array<int32>, newSize: int, startPos: int) returns (r: CropResult)
    ensures r.Thrown? <==> !CropInBounds(c.Length, newSize)
    ensures r.Thrown? ==> r.exception == if newSize < 0 then NegativeArraySizeException else ArrayIndexOutOfBoundsException
    ensures r.Returned? ==> fresh(r.arr) && r.arr.Length == newSize
    ensures r.Returned? && c.Length >= 20 ==>
      forall i :: 0 <= i < newSize ==> r.arr[i] == if 10 <= i < 20 then Int(c[i]) else Null
    ensures r.Returned? && c.Length < 20 ==> forall i :: 0 <= i < newSize ==> r.arr[i] == Int(c[i])
  {
    if newSize < 0 {
      return Thrown(NegativeArraySizeException);
    }
    var newArray := new Slot[newSize](_ => Null);
    if c.Length >= 20 {
      if newSize < 20 {
        return Thrown(ArrayIndexOutOfBoundsException);
      }
      // copy elements from position 10 to 20
      for i := 10 to 20
        invariant forall m :: 0 <= m < newSize ==> newArray[m] == if 10 <= m < i then Int(c[m]) else Null
      {
        newArray[i] := Int(c[i]);
      }
    } else {
      if newSize > c.Length {
        return Thrown(ArrayIndexOutOfBoundsException);
      }
      for i := 0 to newSize
        invariant forall m :: 0 <= m < newSize ==> newArray[m] == if m < i then Int(c[m]) else Null
      {
        newArray[i] := Int(c[i]);
      }
    }
    r := Returned(newArray);
  }

  /** The example of crop's documentation, a 100-element array cropped to "elements 10 to 20"
      with a result of size 10, raises ArrayIndexOutOfBoundsException: the long-source branch
      writes `new_Array[10]` into an array of 10 slots. */
  method CropDocExample() returns (r: CropResult)
    ensures r == Thrown(ArrayIndexOutOfBoundsException)
  {
    var c := new int32[100](_ => 1);
    r := Crop(c, 10, 10);
  }

  // ---------------------------------------------------------------------------------------
  // Smooth: the interior loop and the right-edge step

  /** The test `x > max || x < min`. */
  predicate OutOfRange(x: int32, min: int32, max: int32)
  {
    x > max || x < min
  }

  /** `s` after the iterations i, i+1, ..., |s|-1 of `for (i = 2; i < arr_size; i++)`: when the
      LAST element is out of range, `array[i-1]` becomes `(array[i-2] + array[i]) / 2`, where
      `array[i-2]` has already been rewritten by the previous iteration. */
  function SmoothLoop(s: seq<int32>, i: int, min: int32, max: int32): seq<int32>
    requires i >= 2
    decreases |s| - i
  {
    if i >= |s| then s
    else
      var t := if OutOfRange(s[|s| - 1], min, max) then s[i - 1 := Half(Add(s[i - 2], s[i]))] else s;
      SmoothLoop(t, i + 1, min, max)
  }

  /** The right-edge step: the last element becomes `array[arr_size-2] / 2` when the element
      before it is out of range. Arrays shorter than 2 are left alone. */
  function SmoothRightEdge(s: seq<int32>, min: int32, max: int32): seq<int32>
  {
    if |s| >= 2 && OutOfRange(s[|s| - 2], min, max) then s[|s| - 1 := Half(s[|s| - 2])] else s
  }

  /** The array after the part of `smooth` that is modelled (lines 229-237). */
  function Smoothed(s: seq<int32>, min: int32, max: int32): seq<int32>
  {
    SmoothRightEdge(SmoothLoop(s, 2, min, max), min, max)
  }

  /** `smooth(T[], T, T)` from the interior loop on. */
  method Smooth(a: array<int32>, min: int32, max: int32)
    modifies a
    ensures a[..] == Smoothed(old(a[..]), min, max)
  {
    var arrSize := a.Length;
    var i := 2;
    while i < arrSize
      invariant 2 <= i && (i <= arrSize || i == 2)
      invariant SmoothLoop(a[..], i, min, max) == SmoothLoop(old(a[..]), 2, min, max)
    {
      if a[arrSize - 1] > max || a[arrSize - 1] < min {
        a[i - 1] := Half(Add(a[i - 2], a[i]));
      }
      i := i + 1;
    }
    if arrSize >= 2 {
      a[arrSize - 1] := if a[arrSize - 2] > max || a[arrSize - 2] < min then Half(a[arrSize - 2]) else a[arrSize - 1];
    }
  }

  /** The loop writes only indices 1 .. |s|-2 that it has reached; in particular the element its
      guard reads, the last one, never changes, so the guard has the same value in every
      iteration. */
  lemma {:induction false} SmoothLoopFrame(s: seq<int32>, i: int, min: int32, max: int32)
    requires i >= 2
    ensures |SmoothLoop(s, i, min, max)| == |s|
    ensures forall k :: 0 <= k < |s| && (k < i - 1 || k == |s| - 1) ==> SmoothLoop(s, i, min, max)[k] == s[k]
    decreases |s| - i
  {
    if i < |s| {
      var t := if OutOfRange(s[|s| - 1], min, max) then s[i - 1 := Half(Add(s[i - 2], s[i]))] else s;
      SmoothLoopFrame(t, i + 1, min, max);
    }
  }

  /** If the last element lies within [min, max], the loop changes nothing. */
  lemma {:induction false} SmoothLoopInRange(s: seq<int32>, i: int, min: int32, max: int32)
    requires i >= 2
    requires |s| > 0 ==> !OutOfRange(s[|s| - 1], min, max)
    ensures SmoothLoop(s, i, min, max) == s
    decreases |s| - i
  {
    if i < |s| {
      SmoothLoopInRange(s, i + 1, min, max);
    }
  }

  /** If the last element is out of range, the loop leaves every interior index j holding the
      average of the already-smoothed element j-1 and the original element j+1. */
  lemma {:induction false} SmoothLoopAverages(s: seq<int32>, i: int, min: int32, max: int32)
    requires 2 <= i <= |s|
    requires OutOfRange(s[|s| - 1], min, max)
    ensures var r := SmoothLoop(s, i, min, max);
      |r| == |s| && forall j :: i - 1 <= j < |s| - 1 ==> r[j] == Half(Add(r[j - 1], s[j + 1]))
    decreases |s| - i
  {
    if i < |s| {
      var t := s[i - 1 := Half(Add(s[i - 2], s[i]))];
      SmoothLoopAverages(t, i + 1, min, max);
      SmoothLoopFrame(t, i + 1, min, max);
    }
  }

  /** The modelled part of smooth keeps the first element, and changes nothing at all in an
      array of fewer than two elements. */
  lemma SmoothedFirstAndShort(s: seq<int32>, min: int32, max: int32)
    ensures |Smoothed(s, min, max)| == |s|
    ensures |s| > 0 ==> Smoothed(s, min, max)[0] == s[0]
    ensures |s| < 2 ==> Smoothed(s, min, max) == s
  {
    SmoothLoopFrame(s, 2, min, max);
  }

  /** The last element ends as half the (smoothed) element before it when that one is out of
      range, and keeps its original value otherwise. */
  lemma SmoothedLastElement(s: seq<int32>, min: int32, max: int32)
    requires |s| >= 2
    ensures var loop := SmoothLoop(s, 2, min, max);
      |loop| == |s| &&
      Smoothed(s, min, max)[|s| - 1] == if OutOfRange(loop[|s| - 2], min, max) then Half(loop[|s| - 2]) else s[|s| - 1]
  {
    SmoothLoopFrame(s, 2, min, max);
  }

  /** The documented example: on [40, 5, 200, 15] with min 0 and max 100 the code gives
      [40, 5, 200, 100], not the [40, 5, 10, 15] of the doc comment; the last element is in range,
      so the loop is skipped, and 200 before it is halved into the last slot. */
  lemma SmoothDocExample()
    ensures Smoothed([40, 5, 200, 15], 0, 100) == [40, 5, 200, 100]
    ensures Smoothed([40, 5, 200, 15], 0, 100) != [40, 5, 10, 15]
  {
    SmoothLoopInRange([40, 5, 200, 15], 2, 0, 100);
  }

  /** With the last element out of range, the interior becomes a running average that reads
      the already-rewritten left neighbour: on [10, 0, 20, 200] with min 0 and max 100, index 1
      becomes (10 + 20) / 2 = 15 and index 2 becomes (15 + 200) / 2 = 107 (from the original 0 it
      would have been 100); the right edge then finds 107 out of range and writes 107 / 2 = 53. */
  lemma SmoothPropagates()
    ensures SmoothLoop([10, 0, 20, 200], 2, 0, 100) == [10, 15, 107, 200]
    ensures Smoothed([10, 0, 20, 200], 0, 100) == [10, 15, 107, 53]
  {
    assert SmoothLoop([10, 0, 20, 200], 2, 0, 100) == SmoothLoop([10, 15, 20, 200], 3, 0, 100);
    assert SmoothLoop([10, 15, 20, 200], 3, 0, 100) == SmoothLoop([10, 15, 107, 200], 4, 0, 100);
  }

  /** The averages truncate toward zero, as Java's `/` does: on [-5, 0, -4, 200] index 1 becomes
      -9 / 2 = -4 (Euclidean division would give -5), and index 2 becomes 196 / 2 = 98. */
  lemma SmoothTruncates()
    ensures Smoothed([-5, 0, -4, 200], 0, 100) == [-5, -4, 98, 200]
  {
    assert SmoothLoop([-5, 0, -4, 200], 2, 0, 100) == SmoothLoop([-5, -4, -4, 200], 3, 0, 100);
    assert SmoothLoop([-5, -4, -4, 200], 3, 0, 100) == SmoothLoop([-5, -4, 98, 200], 4, 0, 100);
  }
}
