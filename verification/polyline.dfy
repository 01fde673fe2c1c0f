/** Vocabulary shared by the polyline compressors and the polygon builders. */
module Polyline {

  /** Interior column `x` carries no information: its height equals both
      neighbours' heights (the chained `h[x] == h[x-1] == h[x+1]`). */
  predicate Flat(h: seq<int>, x: int)
    requires 1 <= x < |h| - 1
  {
    h[x] == h[x - 1] && h[x - 1] == h[x + 1]
  }

  predicate StrictlyIncreasing(s: seq<int>) {
    forall i :: 0 <= i < |s| - 1 ==> s[i] < s[i + 1]
  }

  /** The outline of a surface over `width` columns: parallel coordinate lists
      of equal length running from x = 0 to x = width. */
  predicate Spans(xs: seq<int>, ys: seq<int>, width: int) {
    && |xs| == |ys|
    && |xs| >= 2
    && xs[0] == 0
    && xs[|xs| - 1] == width
    && StrictlyIncreasing(xs)
  }

  function Reverse(s: seq<int>): (r: seq<int>)
    ensures |r| == |s|
    ensures forall i :: 0 <= i < |s| ==> r[i] == s[|s| - 1 - i]
  {
    if s == [] then [] else Reverse(s[1..]) + [s[0]]
  }

  /** The column indices 0, 1, ..., n - 1 (Python's `range(n)`). */
  function Columns(n: nat): (r: seq<int>)
    ensures |r| == n
    ensures forall i :: 0 <= i < n ==> r[i] == i
  {
    seq(n, i => i)
  }

  /** Every element of `s` shifted by `d`. */
  function Shift(s: seq<int>, d: int): (r: seq<int>)
    ensures |r| == |s|
    ensures forall i :: 0 <= i < |s| ==> r[i] == s[i] + d
  {
    seq(|s|, i requires 0 <= i < |s| => s[i] + d)
  }
}
