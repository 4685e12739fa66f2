// The replace worker: one `Runnable` that replaces a value over a slice [startPos, endPos) of a
// shared array.

module ReplaceWorker {
  import opened JavaLang

  /** `s` after every index k in [lo, hi) that holds `oldValue` has been overwritten by
      `newValue`; indices of `s` outside that window are not touched. */
  function ReplacedRange(s: seq<int32>, lo: int, hi: int, oldValue: int32, newValue: int32): seq<int32>
  {
    seq(|s|, k requires 0 <= k < |s| => if lo <= k < hi && s[k] == oldValue then newValue else s[k])
  }

  /** The worker's loop `for (i = startPos; i < endPos; i++)` only indexes the array when the
      range is non-empty, and then needs it to lie inside the array; otherwise it raises
      ArrayIndexOutOfBoundsException, which `run` turns into `System.exit`. */
  predicate RangeInBounds(length: int, startPos: int, endPos: int)
  {
    startPos >= endPos || (0 <= startPos && endPos <= length)
  }

  class ReplaceInParallel {
    const arr: array<int32>
    const oldValue: int32
    const newValue: int32
    const startPos: int
    const endPos: int

    constructor (arr: array<int32>, oldValue: int32, newValue: int32, start: int, end: int)
      ensures this.arr == arr && this.oldValue == oldValue && this.newValue == newValue
      ensures startPos == start && endPos == end
    {
      this.arr := arr;
      this.oldValue := oldValue;
      this.newValue := newValue;
      startPos := start;
      endPos := end;
    }

    /** The body of `run()`: writes `newValue` over each occurrence of `oldValue` in the slice. */
    method Run()
      requires RangeInBounds(arr.Length, startPos, endPos)
      modifies arr
      ensures arr[..] == ReplacedRange(old(arr[..]), startPos, endPos, oldValue, newValue)
    {
      var i := startPos;
      while i < endPos
        invariant startPos <= i && (i <= endPos || i == startPos)
        invariant arr[..] == ReplacedRange(old(arr[..]), startPos, i, oldValue, newValue)
      {
        if arr[i] == oldValue {
          arr[i] := newValue;
        }
        i := i + 1;
      }
    }
  }

  /** Replacing keeps the length, writes `newValue` exactly where `oldValue` stood inside the
      window, and leaves every other index as it was. */
  lemma ReplacedRangeAt(s: seq<int32>, lo: int, hi: int, oldValue: int32, newValue: int32, k: int)
    requires 0 <= k < |s|
    ensures |ReplacedRange(s, lo, hi, oldValue, newValue)| == |s|
    ensures lo <= k < hi && s[k] == oldValue ==> ReplacedRange(s, lo, hi, oldValue, newValue)[k] == newValue
    ensures !(lo <= k < hi) || s[k] != oldValue ==> ReplacedRange(s, lo, hi, oldValue, newValue)[k] == s[k]
  {
  }

  /** After a run no index of the window still holds `oldValue`, unless the two values coincide. */
  lemma ReplacedRangeTotal(s: seq<int32>, lo: int, hi: int, oldValue: int32, newValue: int32)
    requires oldValue != newValue
    ensures forall k :: 0 <= k < |s| && lo <= k < hi ==> ReplacedRange(s, lo, hi, oldValue, newValue)[k] != oldValue
  {
  }

  /** Running the same worker twice has the effect of running it once. */
  lemma ReplacedRangeIdempotent(s: seq<int32>, lo: int, hi: int, oldValue: int32, newValue: int32)
    ensures ReplacedRange(ReplacedRange(s, lo, hi, oldValue, newValue), lo, hi, oldValue, newValue)
         == ReplacedRange(s, lo, hi, oldValue, newValue)
  {
  }

  /** An empty range (startPos >= endPos) changes nothing. */
  lemma ReplacedRangeEmpty(s: seq<int32>, lo: int, hi: int, oldValue: int32, newValue: int32)
    requires hi <= lo
    ensures ReplacedRange(s, lo, hi, oldValue, newValue) == s
  {
  }

  /** Running [lo, mid) and then [mid, hi) equals running [lo, hi): adjacent workers compose. */
  lemma ReplacedRangeSplit(s: seq<int32>, lo: int, mid: int, hi: int, oldValue: int32, newValue: int32)
    requires lo <= mid <= hi
    ensures ReplacedRange(ReplacedRange(s, lo, mid, oldValue, newValue), mid, hi, oldValue, newValue)
         == ReplacedRange(s, lo, hi, oldValue, newValue)
  {
  }

  /** Two workers give the same array whichever runs first, for any two ranges: the result of
      the chunked replace does not depend on the order in which the threads run. */
  lemma ReplacedRangeCommute(s: seq<int32>, a: int, b: int, c: int, d: int, oldValue: int32, newValue: int32)
    ensures ReplacedRange(ReplacedRange(s, a, b, oldValue, newValue), c, d, oldValue, newValue)
         == ReplacedRange(ReplacedRange(s, c, d, oldValue, newValue), a, b, oldValue, newValue)
  {
  }
}
