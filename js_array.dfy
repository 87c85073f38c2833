/** The two JavaScript array operations the elimination engine relies on,
    `Array.prototype.indexOf` and `Array.prototype.slice`, with their
    ECMAScript semantics: indexOf answers -1 for a missing element, and slice
    reads a negative bound as an offset from the end of the array and clamps
    every bound into [0, length]. */
module JsArray {

  /** `xs.indexOf(x)`: the position of the first occurrence of `x`, or -1. */
  function IndexOf<T(==)>(xs: seq<T>, x: T): (r: int)
    ensures -1 <= r < |xs|
    ensures r == -1 <==> x !in xs
    ensures r >= 0 ==> xs[r] == x && x !in xs[..r]
  {
    if xs == [] then -1
    else if xs[0] == x then 0
    else
      var i := IndexOf(xs[1..], x);
      assert i >= 0 ==> xs[..i + 1] == [xs[0]] + xs[1..][..i];
      if i < 0 then -1 else i + 1
  }

  /** How slice turns one bound into a position: negative bounds count back
      from the end, and the result is clamped into [0, len]. */
  function RelativeIndex(i: int, len: nat): (r: nat)
    ensures r <= len
    ensures 0 <= i <= len ==> r == i
    ensures i < 0 ==> r == if len + i < 0 then 0 else len + i
  {
    if i < 0 then (if len + i < 0 then 0 else len + i)
    else if i > len then len
    else i
  }

  /** `xs.slice(start, end)`: the elements from the position `start` denotes
      up to the one `end` denotes, negative bounds counting back from the
      end, bounds beyond either end clamped, and nothing when the start
      position is not before the end position. */
  function Slice<T>(xs: seq<T>, start: int, end: int): (r: seq<T>)
    ensures 0 <= start <= end <= |xs| ==> r == xs[start..end]
    ensures -|xs| <= start < 0 && |xs| + start <= end <= |xs| ==> r == xs[|xs| + start..end]
    ensures start < -|xs| && 0 <= end <= |xs| ==> r == xs[..end]
    ensures 0 <= start <= |xs| + end && -|xs| <= end < 0 ==> r == xs[start..|xs| + end]
    ensures 0 <= start <= |xs| < end ==> r == xs[start..]
    ensures 0 <= end <= start ==> r == []
    ensures |r| <= |xs|
  {
    var from, to := RelativeIndex(start, |xs|), RelativeIndex(end, |xs|);
    if from < to then xs[from..to] else []
  }

  /** `xs.slice(start)`: the end bound defaults to the length. */
  function SliceFrom<T>(xs: seq<T>, start: int): (r: seq<T>)
    ensures 0 <= start <= |xs| ==> r == xs[start..]
    ensures start < 0 && |xs| + start >= 0 ==> r == xs[|xs| + start..]
  {
    Slice(xs, start, |xs|)
  }
}
