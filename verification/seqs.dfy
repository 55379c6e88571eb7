/** Sequence helpers shared by the model: distinctness, counting and JavaScript's `slice(0, end)`. */
module Seqs {

  /** No element occurs twice. */
  predicate NoDup<T(==)>(s: seq<T>) {
    forall i, j :: 0 <= i < j < |s| ==> s[i] != s[j]
  }

  /** The number of positions of `s` that hold `x`. */
  function Occurrences<T(==)>(s: seq<T>, x: T): (n: nat)
    ensures n <= |s|
    ensures n == 0 <==> x !in s
  {
    if s == [] then 0
    else Occurrences(s[..|s| - 1], x) + (if s[|s| - 1] == x then 1 else 0)
  }

  /**
   * The end index that `Array.prototype.slice(0, end)` uses on an array of
   * length `len`; `end` is `None` when it converts to NaN, which counts as 0.
   * A negative end counts back from the end of the array.
   */
  function SliceEnd(len: nat, end: Option<int>): (k: nat)
    ensures k <= len
    ensures end.None? ==> k == 0
    ensures end.Some? && end.value >= 0 ==> k == if end.value < len then end.value else len
    ensures end.Some? && end.value < 0 ==> k + (-end.value) == len || (k == 0 && len <= -end.value)
  {
    match end
    case None => 0
    case Some(n) =>
      if n >= 0 then (if n < len then n else len)
      else if len + n > 0 then len + n else 0
  }

  /** `SliceEnd` with an end that is a plain number. */
  function Take<T>(s: seq<T>, n: nat): (r: seq<T>)
    ensures |r| == if |s| <= n then |s| else n
    ensures r == s[..|r|]
    ensures |s| <= n ==> r == s
  {
    if |s| <= n then s else s[..n]
  }

  import opened Wrappers
}
