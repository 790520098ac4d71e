/** Array.prototype.slice, with the index rules JavaScript applies to its arguments. */
module JsArray {
  import opened JsNumber

  /**
    The position one argument of `slice` selects in an array of length `len`:
    NaN counts as 0, a negative index counts back from the end, and the
    result is clipped to the array.
   */
  function RelativeIndex(x: Num, len: nat): (k: nat)
    ensures k <= len
    ensures x.NaN? ==> k == 0
    ensures x.Int? && 0 <= x.value <= len ==> k == x.value
    ensures x.Int? && x.value > len ==> k == len
    ensures x.Int? && -(len as int) <= x.value < 0 ==> k == len + x.value
    ensures x.Int? && x.value < -(len as int) ==> k == 0
  {
    match x
    case NaN => 0
    case Int(v) =>
      if v < 0 then (if len + v < 0 then 0 else len + v)
      else if v < len then v else len
  }

  /** `s.slice(start, end)`: the elements from the start position up to, not including, the end position. */
  function Slice<T>(s: seq<T>, start: Num, end: Num): (r: seq<T>)
    ensures var from, to := RelativeIndex(start, |s|), RelativeIndex(end, |s|);
      && |r| == (if from < to then to - from else 0)
      && forall k :: 0 <= k < |r| ==> r[k] == s[from + k]
  {
    var from, to := RelativeIndex(start, |s|), RelativeIndex(end, |s|);
    if from < to then s[from..to] else []
  }

  function Min(a: int, b: int): int
  {
    if a <= b then a else b
  }

  /**
    Among arguments of the same sign a larger one never selects an earlier
    position; across the sign it can: -1 selects the last position, 0 the first.
   */
  lemma RelativeIndexMonotone(x: Num, y: Num, len: nat)
    requires x.Int? && y.Int? && x.value <= y.value
    ensures (x.value >= 0 || y.value < 0) ==> RelativeIndex(x, len) <= RelativeIndex(y, len)
    ensures len > 1 ==> RelativeIndex(Int(-1), len) > RelativeIndex(Int(0), len)
  {
  }

  /**
    A slice is a contiguous run of the array, never longer than it, and an
    end bound that is NaN gives nothing.
   */
  lemma SliceIsRun<T>(s: seq<T>, start: Num, end: Num)
    ensures |Slice(s, start, end)| <= |s|
    ensures exists i, j :: 0 <= i <= j <= |s| && Slice(s, start, end) == s[i..j]
    ensures end.NaN? ==> Slice(s, start, end) == []
  {
    var from, to := RelativeIndex(start, |s|), RelativeIndex(end, |s|);
    if from < to {
      assert Slice(s, start, end) == s[from..to];
    } else {
      assert Slice(s, start, end) == s[0..0];
    }
  }

  /** For bounds 0 <= a <= b the slice holds min(b, |s|) - min(a, |s|) elements. */
  lemma SliceLength<T>(s: seq<T>, a: int, b: int)
    requires 0 <= a <= b
    ensures |Slice(s, Int(a), Int(b))| == Min(b, |s|) - Min(a, |s|)
  {
  }

  /** The window of at most `size` elements from a start of 0 or more: empty at or past the end. */
  lemma SliceWindow<T>(s: seq<T>, start: int, size: int)
    requires start >= 0 && size >= 1
    ensures var r := Slice(s, Int(start), Int(start + size));
      && (start >= |s| ==> r == [])
      && (start < |s| ==> r == s[start..if start + size < |s| then start + size else |s|])
      && |r| == if start >= |s| then 0 else if size < |s| - start then size else |s| - start
  {
  }
}
