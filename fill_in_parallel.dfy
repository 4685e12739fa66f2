// The fill worker: one `Runnable` that, over a slice [startIndex, endIndex) of a shared array,
// overwrites runs of equal adjacent values with `newValue`, remembering in `prevAdj` the value of
// the run it is in (-1 meaning "no run").

module FillWorker {
  import opened JavaLang

  /** The initial value `(T)-1` of `prevAdj`. */
  const NO_RUN: int32 := -1

  /** The loop `for (i = startIndex+1; i < endIndex; i++)` reads `array[i]` and `array[i-1]`,
      so a range with at least one iteration must lie inside the array; otherwise `run` stops on
      ArrayIndexOutOfBoundsException and calls `System.exit`. */
  predicate RangeInBounds(length: int, startIndex: int, endIndex: int)
  {
    startIndex + 1 >= endIndex || (0 <= startIndex && endIndex <= length)
  }

  /** `s` after the iterations i, i+1, ..., end-1 of the loop, entered with `prevAdj`:
      - while a run is open (`prevAdj >= 0`) and `array[i]` equals it, `array[i]` is overwritten;
      - otherwise, if `array[i]` equals `array[i-1]` (as currently stored), a run opens with
        `prevAdj = array[i]` and `array[i-1]` is overwritten;
      - otherwise `prevAdj` goes back to -1. */
  function FillFrom(s: seq<int32>, i: int, end: int, prevAdj: int32, newValue: int32): seq<int32>
    requires i >= end || (1 <= i && end <= |s|)
    decreases end - i
  {
    if i >= end then s
    else if prevAdj >= 0 && s[i] == prevAdj then FillFrom(s[i := newValue], i + 1, end, prevAdj, newValue)
    else if s[i] == s[i - 1] then FillFrom(s[i - 1 := newValue], i + 1, end, s[i], newValue)
    else FillFrom(s, i + 1, end, NO_RUN, newValue)
  }

  /** The array after one complete `run()` over [startIndex, endIndex). */
  function Filled(s: seq<int32>, startIndex: int, endIndex: int, newValue: int32): seq<int32>
    requires RangeInBounds(|s|, startIndex, endIndex)
  {
    FillFrom(s, startIndex + 1, endIndex, NO_RUN, newValue)
  }

  class FillInParallel {
    const arr: array<int32>
    const newValue: int32
    const startIndex: int
    const endIndex: int

    constructor (arr: array<int32>, newValue: int32, start: int, end: int)
      ensures this.arr == arr && this.newValue == newValue
      ensures startIndex == start && endIndex == end
    {
      this.arr := arr;
      this.newValue := newValue;
      startIndex := start;
      endIndex := end;
    }

    /** The body of `run()`. */
    method Run()
      requires RangeInBounds(arr.Length, startIndex, endIndex)
      modifies arr
      ensures arr[..] == Filled(old(arr[..]), startIndex, endIndex, newValue)
    {
      var prevAdj := NO_RUN;
      var i := startIndex + 1;
      while i < endIndex
        invariant startIndex + 1 <= i && (i <= endIndex || i == startIndex + 1)
        invariant FillFrom(arr[..], i, endIndex, prevAdj, newValue) == Filled(old(arr[..]), startIndex, endIndex, newValue)
      {
        if prevAdj >= 0 && arr[i] == prevAdj {
          arr[i] := newValue;
        } else {
          if arr[i] == arr[i - 1] {
            prevAdj := arr[i];
            arr[i - 1] := newValue;
          } else {
            prevAdj := NO_RUN;
          }
        }
        i := i + 1;
      }
    }
  }

  /** The iterations from i on touch only indices in [i-1, end), and every write stores
      `newValue`. */
  lemma {:induction false} FillFromFrame(s: seq<int32>, i: int, end: int, prevAdj: int32, newValue: int32)
    requires i >= end || (1 <= i && end <= |s|)
    ensures var r := FillFrom(s, i, end, prevAdj, newValue);
      |r| == |s| &&
      forall k :: 0 <= k < |s| ==> r[k] == s[k] || (i - 1 <= k < end && r[k] == newValue)
    decreases end - i
  {
    if i < end {
      if prevAdj >= 0 && s[i] == prevAdj {
        FillFromFrame(s[i := newValue], i + 1, end, prevAdj, newValue);
      } else if s[i] == s[i - 1] {
        FillFromFrame(s[i - 1 := newValue], i + 1, end, s[i], newValue);
      } else {
        FillFromFrame(s, i + 1, end, NO_RUN, newValue);
      }
    }
  }

  /** A run writes only inside [startIndex, endIndex), and only `newValue`. */
  lemma FilledFrame(s: seq<int32>, startIndex: int, endIndex: int, newValue: int32)
    requires RangeInBounds(|s|, startIndex, endIndex)
    ensures var r := Filled(s, startIndex, endIndex, newValue);
      |r| == |s| &&
      forall k :: 0 <= k < |s| ==> r[k] == s[k] || (startIndex <= k < endIndex && r[k] == newValue)
  {
    FillFromFrame(s, startIndex + 1, endIndex, NO_RUN, newValue);
  }

  /** A range of at most one element is left unchanged: the loop does not iterate. */
  lemma FilledShortRange(s: seq<int32>, startIndex: int, endIndex: int, newValue: int32)
    requires endIndex - startIndex <= 1
    ensures Filled(s, startIndex, endIndex, newValue) == s
  {
  }

  /** No two (originally) adjacent cells in [i-1, end) equal: with no run open, nothing is
      written. */
  lemma {:induction false} FillFromNoRun(s: seq<int32>, i: int, end: int, newValue: int32)
    requires i >= end || (1 <= i && end <= |s|)
    requires forall k :: i <= k < end ==> s[k] != s[k - 1]
    ensures FillFrom(s, i, end, NO_RUN, newValue) == s
    decreases end - i
  {
    if i < end {
      FillFromNoRun(s, i + 1, end, newValue);
    }
  }

  /** If no two adjacent cells of the range are equal, a run leaves the array unchanged: `prevAdj`
      only becomes non-negative once an equal pair is found. */
  lemma FilledNoAdjacentEqual(s: seq<int32>, startIndex: int, endIndex: int, newValue: int32)
    requires RangeInBounds(|s|, startIndex, endIndex)
    requires forall k :: startIndex < k < endIndex ==> s[k] != s[k - 1]
    ensures Filled(s, startIndex, endIndex, newValue) == s
  {
    FillFromNoRun(s, startIndex + 1, endIndex, newValue);
  }

  /** The sentinel `prevAdj >= 0` treats runs of non-negative and negative values differently:
      [3, 3, 3] becomes [7, 3, 7] (the open run of 3 rewrites index 2), while [-3, -3, -3] becomes
      [7, 7, -3] (a run of -3 never counts as open, so each equal pair rewrites its left cell). */
  lemma FillSentinelExamples()
    ensures Filled([3, 3, 3], 0, 3, 7) == [7, 3, 7]
    ensures Filled([-3, -3, -3], 0, 3, 7) == [7, 7, -3]
  {
    assert FillFrom([3, 3, 3], 1, 3, NO_RUN, 7) == FillFrom([7, 3, 3], 2, 3, 3, 7);
    assert FillFrom([-3, -3, -3], 1, 3, NO_RUN, 7) == FillFrom([7, -3, -3], 2, 3, -3, 7);
  }

  /** The worker has no seed index: it rewrites every equal adjacent pair of its range. On the
      example of the fill documentation, [0, 2, 0, 1, 1, 1, 2, 2, 1] over [0, 9) with 7, it gives
      [0, 2, 0, 7, 1, 7, 7, 2, 1] rather than the documented [0, 2, 0, 7, 7, 7, 2, 2, 1]. */
  lemma FillDocExample()
    ensures Filled([0, 2, 0, 1, 1, 1, 2, 2, 1], 0, 9, 7) == [0, 2, 0, 7, 1, 7, 7, 2, 1]
    ensures Filled([0, 2, 0, 1, 1, 1, 2, 2, 1], 0, 9, 7) != [0, 2, 0, 7, 7, 7, 2, 2, 1]
  {
    var s := [0, 2, 0, 1, 1, 1, 2, 2, 1];
    assert FillFrom(s, 1, 9, NO_RUN, 7) == FillFrom(s, 4, 9, NO_RUN, 7);
    assert FillFrom(s, 4, 9, NO_RUN, 7) == FillFrom([0, 2, 0, 7, 1, 1, 2, 2, 1], 5, 9, 1, 7);
    assert FillFrom([0, 2, 0, 7, 1, 1, 2, 2, 1], 5, 9, 1, 7) == FillFrom([0, 2, 0, 7, 1, 7, 2, 2, 1], 6, 9, 1, 7);
    assert FillFrom([0, 2, 0, 7, 1, 7, 2, 2, 1], 6, 9, 1, 7) == FillFrom([0, 2, 0, 7, 1, 7, 2, 2, 1], 7, 9, NO_RUN, 7);
    assert FillFrom([0, 2, 0, 7, 1, 7, 2, 2, 1], 7, 9, NO_RUN, 7) == FillFrom([0, 2, 0, 7, 1, 7, 7, 2, 1], 8, 9, 2, 7);
  }
}
